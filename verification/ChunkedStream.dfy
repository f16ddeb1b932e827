/** The incremental decoder: a state machine over bytes, and the class that runs it
    slice by slice. */
module ChunkedStream {
  import opened Basics
  import opened Bytes
  import opened ChunkedFormat
  import opened ChunkedWhole

  type Positive = n: int | n > 0 witness 1

  datatype DecoderState =
    | Header
    | Data(remaining: Positive)
    | DataCrlf(seenCr: bool)
    | Trailers
    | Done

  /** The decoder's fields, and in `out` every data byte it has emitted. */
  datatype Stream = Stream(
    state: DecoderState, lineBuf: seq<Byte>, decodedLen: nat, trailers: seq<Trailer>, totalRaw: nat, out: seq<Byte>)

  const START := Stream(Header, [], 0, [], 0, [])

  // ---- One byte at a time ----

  predicate EndsLine(buf: seq<Byte>) { CrlfAt(buf, |buf| - 2) }

  predicate EndsSection(buf: seq<Byte>) {
    buf == CRLF || (|buf| >= 4 && CrlfAt(buf, |buf| - 4) && CrlfAt(buf, |buf| - 2))
  }

  lemma SectionEnd(buf: seq<Byte>)
    ensures EndsSection(buf) <==> buf == CRLF || (|buf| >= 4 && buf[|buf| - 4..] == [CR, LF, CR, LF])
  {
    if |buf| >= 4 {
      var tail := buf[|buf| - 4..];
      assert tail == [buf[|buf| - 4], buf[|buf| - 3], buf[|buf| - 2], buf[|buf| - 1]];
    }
  }

  /** Acts on a complete header line, held in `lineBuf` without its CRLF. */
  function EndHeader(s: Stream): Result<Stream> {
    var size :- HeaderSize(s.lineBuf);
    Ok(s.(state := if size == 0 then Trailers else Data(size), lineBuf := []))
  }

  /** Acts on a complete trailer section, held in `lineBuf`. */
  function EndTrailers(s: Stream): Result<Stream> {
    var section :- TrailerLines(s.lineBuf, 0);
    TrailerLinesSound(s.lineBuf, 0);
    Ok(s.(state := Done, lineBuf := [], trailers := LineTrailers(section.lines)))
  }

  function Step(s: Stream, b: Byte): Result<Stream>
    requires !s.state.Done?
  {
    var t := s.(totalRaw := s.totalRaw + 1);
    var buf := s.lineBuf + [b];
    match s.state
    case Header =>
      if EndsLine(buf) then EndHeader(t.(lineBuf := buf[..|buf| - 2]))
      else if |buf| > MAX_TRAILER_SECTION_BYTES then Err(InvalidChunkHeader)
      else Ok(t.(lineBuf := buf))
    case Data(n) =>
      var next := if n == 1 then DataCrlf(false) else Data(n - 1);
      Ok(t.(state := next, decodedLen := t.decodedLen + 1, out := t.out + [b]))
    case DataCrlf(seenCr) =>
      if b != (if seenCr then LF else CR) then Err(InvalidChunkHeader)
      else Ok(t.(state := if seenCr then Header else DataCrlf(true)))
    case Trailers =>
      if EndsSection(buf) then EndTrailers(t.(lineBuf := buf))
      else if |buf| > MAX_TRAILER_SECTION_BYTES then Err(TrailerTooLarge(|buf|, MAX_TRAILER_SECTION_BYTES))
      else Ok(t.(lineBuf := buf))
  }

  function Run(s: Stream, input: seq<Byte>): Result<Stream>
    decreases |input|
  {
    if input == [] then Ok(s)
    else if s.state.Done? then Err(LengthMismatch(s.totalRaw, s.totalRaw + |input|))
    else
      var t :- Step(s, input[0]);
      Run(t, input[1..])
  }

  function Continue(r: Result<Stream>, input: seq<Byte>): Result<Stream> {
    if r.Ok? then Run(r.value, input) else r
  }

  /** The same failure. An error about bytes after the end also counts the bytes of the slice
      it is found in, and that count alone may differ. */
  predicate SameError(e: ChunkedError, f: ChunkedError) {
    e == f || (e.LengthMismatch? && f.LengthMismatch? && e.expected == f.expected)
  }

  /** Pushing `a` and then `b` is pushing `a + b`: same state, same output, and a failure
      in `a` is the same failure in `a + b`. */
  lemma {:induction false} RunIsHomomorphic(s: Stream, a: seq<Byte>, b: seq<Byte>)
    ensures Run(s, a).Ok? ==> Run(s, a + b) == Run(Run(s, a).value, b)
    ensures Run(s, a).Err? ==> Run(s, a + b).Err? && SameError(Run(s, a).error, Run(s, a + b).error)
    decreases |a|
  {
    hide EndHeader, EndTrailers, EndsLine, EndsSection;
    if a == [] {
      assert a + b == b;
    } else if !s.state.Done? {
      assert (a + b)[0] == a[0] && (a + b)[1..] == a[1..] + b;
      if Step(s, a[0]).Ok? {
        RunIsHomomorphic(Step(s, a[0]).value, a[1..], b);
      }
    }
  }

  lemma RunOne(s: Stream, b: Byte)
    requires !s.state.Done?
    ensures Run(s, [b]) == Step(s, b)
  {
    assert [b][1..] == [];
  }

  lemma RunEmpty(s: Stream)
    ensures Run(s, []) == Ok(s)
  {
  }

  lemma RunDone(s: Stream, input: seq<Byte>)
    requires s.state.Done? && input != []
    ensures Run(s, input) == Err(LengthMismatch(s.totalRaw, s.totalRaw + |input|))
  {
  }

  lemma RunCons(s: Stream, b: Byte, rest: seq<Byte>)
    requires !s.state.Done?
    ensures Run(s, [b] + rest) == Continue(Step(s, b), rest)
  {
    assert ([b] + rest)[1..] == rest;
  }

  lemma RunHeaderByte(s: Stream, input: seq<Byte>, i: nat)
    requires s.state.Header? && i < |input|
    ensures var buf, t, rest := s.lineBuf + [input[i]], s.(totalRaw := s.totalRaw + 1), input[i + 1..];
      Run(s, input[i..]) ==
        if EndsLine(buf) then Continue(EndHeader(t.(lineBuf := buf[..|buf| - 2])), rest)
        else if |buf| > MAX_TRAILER_SECTION_BYTES then Err(InvalidChunkHeader)
        else Run(t.(lineBuf := buf), rest)
  {
    hide Run, EndHeader, EndsLine;
    RunCons(s, input[i], input[i + 1..]);
    assert input[i..] == [input[i]] + input[i + 1..];
  }

  lemma RunTrailerByte(s: Stream, input: seq<Byte>, i: nat)
    requires s.state.Trailers? && i < |input|
    ensures var buf, t, rest := s.lineBuf + [input[i]], s.(totalRaw := s.totalRaw + 1), input[i + 1..];
      Run(s, input[i..]) ==
        if EndsSection(buf) then Continue(EndTrailers(t.(lineBuf := buf)), rest)
        else if |buf| > MAX_TRAILER_SECTION_BYTES then Err(TrailerTooLarge(|buf|, MAX_TRAILER_SECTION_BYTES))
        else Run(t.(lineBuf := buf), rest)
  {
    hide Run, EndTrailers, EndsSection;
    RunCons(s, input[i], input[i + 1..]);
    assert input[i..] == [input[i]] + input[i + 1..];
  }

  // ---- Bounded carry-over and exact counters, over every run ----

  predicate Bounded(s: Stream) {
    && |s.lineBuf| <= MAX_TRAILER_SECTION_BYTES
    && s.decodedLen == |s.out|
    && (s.lineBuf != [] ==> s.state.Header? || s.state.Trailers?)
  }

  lemma StepBounded(s: Stream, b: Byte)
    requires Bounded(s) && !s.state.Done? && Step(s, b).Ok?
    ensures Bounded(Step(s, b).value)
    ensures Step(s, b).value.totalRaw == s.totalRaw + 1
    ensures s.out <= Step(s, b).value.out
  {
    hide HeaderSize, LineTrailer, TrailerLines, LineTrailers, EndsLine, EndsSection;
  }

  /** After every successful run the carry-over is at most 8192 bytes, `decodedLen` counts the
      bytes emitted and `totalRaw` the bytes consumed; emitted bytes are never taken back. */
  lemma {:induction false} CarryOverIsBounded(s: Stream, input: seq<Byte>)
    requires Bounded(s) && Run(s, input).Ok?
    ensures Bounded(Run(s, input).value)
    ensures Run(s, input).value.totalRaw == s.totalRaw + |input|
    ensures s.out <= Run(s, input).value.out
    decreases |input|
  {
    hide Step, Bounded;
    if input != [] {
      StepBounded(s, input[0]);
      CarryOverIsBounded(Step(s, input[0]).value, input[1..]);
    }
  }

  // ---- The class ----

  class IncrementalDecoder {
    var state: DecoderState
    var lineBuf: seq<Byte>
    var decodedLen: nat
    var trailers: seq<Trailer>
    var totalRaw: nat
    ghost var emitted: seq<Byte>

    ghost function View(): Stream
      reads this
    {
      Stream(state, lineBuf, decodedLen, trailers, totalRaw, emitted)
    }

    constructor ()
      ensures View() == START
    {
      state, lineBuf, decodedLen, trailers, totalRaw, emitted := Header, [], 0, [], 0, [];
    }

    /** `feed_line`: collects input into `lineBuf` up to a CRLF, which it drops. */
    method FeedLine(input: seq<Byte>, start: nat) returns (r: Result<bool>, cursor: nat)
      requires start <= |input| && state.Header?
      modifies this`lineBuf, this`totalRaw
      ensures start <= cursor <= |input|
      ensures match r
        case Err(e) => Run(old(View()), input[start..]) == Err(e)
        case Ok(false) => Run(old(View()), input[start..]) == Ok(View()) && cursor == |input|
        case Ok(true) =>
          Run(old(View()), input[start..]) == Continue(EndHeader(View()), input[cursor..]) && start < cursor
    {
      hide EndHeader, EndTrailers, Run, Step;
      cursor := start;
      while cursor < |input|
        invariant start <= cursor <= |input|
        invariant Run(old(View()), input[start..]) == Run(View(), input[cursor..])
      {
        var b := input[cursor];
        RunHeaderByte(View(), input, cursor);
        cursor := cursor + 1;
        totalRaw := totalRaw + 1;
        lineBuf := lineBuf + [b];
        var n := |lineBuf|;
        if n >= 2 && lineBuf[n - 2] == CR && lineBuf[n - 1] == LF {
          lineBuf := lineBuf[..n - 2];
          return Ok(true), cursor;
        }
        if n > MAX_TRAILER_SECTION_BYTES {
          return Err(InvalidChunkHeader), cursor;
        }
      }
      RunEmpty(View());
      assert input[cursor..] == [];
      return Ok(false), cursor;
    }

    /** `feed_trailers`: collects input into `lineBuf` up to the first empty line. */
    method FeedTrailers(input: seq<Byte>, start: nat) returns (r: Result<bool>, cursor: nat)
      requires start <= |input| && state.Trailers?
      modifies this`lineBuf, this`totalRaw
      ensures start <= cursor <= |input|
      ensures match r
        case Err(e) => Run(old(View()), input[start..]) == Err(e)
        case Ok(false) => Run(old(View()), input[start..]) == Ok(View()) && cursor == |input|
        case Ok(true) =>
          Run(old(View()), input[start..]) == Continue(EndTrailers(View()), input[cursor..]) && start < cursor
    {
      hide EndHeader, EndTrailers, EndsSection, EndsLine, Run, Step;
      cursor := start;
      while cursor < |input|
        invariant start <= cursor <= |input|
        invariant Run(old(View()), input[start..]) == Run(View(), input[cursor..])
      {
        var b := input[cursor];
        RunTrailerByte(View(), input, cursor);
        cursor := cursor + 1;
        totalRaw := totalRaw + 1;
        lineBuf := lineBuf + [b];
        var n := |lineBuf|;
        SectionEnd(lineBuf);
        if lineBuf == CRLF || (n >= 4 && lineBuf[n - 4..] == [CR, LF, CR, LF]) {
          return Ok(true), cursor;
        }
        if n > MAX_TRAILER_SECTION_BYTES {
          return Err(TrailerTooLarge(n, MAX_TRAILER_SECTION_BYTES)), cursor;
        }
      }
      RunEmpty(View());
      assert input[cursor..] == [];
      return Ok(false), cursor;
    }

    /** `push`: consumes one slice and returns the data bytes it completes. */
    method Push(input: seq<Byte>) returns (r: Result<seq<Byte>>)
      modifies this
      ensures match r
        case Ok(out) => Run(old(View()), input) == Ok(View()) && emitted == old(emitted) + out
        case Err(e) => Run(old(View()), input) == Err(e)
    {
      hide EndsLine, EndsSection, HeaderSize, TrailerLines, LineTrailers, Step, Run;
      var out: seq<Byte> := [];
      var cursor: nat := 0;
      assert input[0..] == input;
      while cursor < |input|
        invariant cursor <= |input|
        invariant Run(old(View()), input) == Run(View(), input[cursor..])
        invariant emitted == old(emitted) + out
        decreases |input| - cursor
      {
        match state
        case Header =>
          var complete;
          complete, cursor := FeedLine(input, cursor);
          if complete.Err? {
            return Err(complete.error);
          }
          if !complete.value {
            break;
          }
          var size := HeaderSize(lineBuf);
          if size.Err? {
            return Err(size.error);
          }
          lineBuf := [];
          state := if size.value == 0 then Trailers else Data(size.value);
        case Data(remaining) =>
          var take := Min(remaining, |input| - cursor);
          RunDataAt(View(), input, cursor, take);
          out := out + input[cursor..cursor + take];
          emitted := emitted + input[cursor..cursor + take];
          cursor := cursor + take;
          totalRaw := totalRaw + take;
          decodedLen := decodedLen + take;
          state := if take == remaining then DataCrlf(false) else Data(remaining - take);
        case DataCrlf(seenCr) =>
          var b := input[cursor];
          RunDataCrlfAt(View(), input, cursor);
          cursor := cursor + 1;
          totalRaw := totalRaw + 1;
          if b != (if seenCr then LF else CR) {
            return Err(InvalidChunkHeader);
          }
          state := if seenCr then Header else DataCrlf(true);
        case Trailers =>
          var complete;
          complete, cursor := FeedTrailers(input, cursor);
          if complete.Err? {
            return Err(complete.error);
          }
          if !complete.value {
            break;
          }
          var parsed, _ := ParseTrailers(lineBuf, 0);
          assert lineBuf[0..] == lineBuf;
          if parsed.Err? {
            return Err(parsed.error);
          }
          trailers := parsed.value;
          lineBuf := [];
          state := Done;
        case Done =>
          RunDone(View(), input[cursor..]);
          return Err(LengthMismatch(totalRaw, totalRaw + (|input| - cursor)));
      }
      RunEmpty(View());
      assert input[cursor..] == [];
      return Ok(out);
    }

    /** `finish`: the trailers and the decoded length, if the body was framed to its end. */
    method Finish() returns (r: Result<(seq<Trailer>, nat)>)
      ensures r == if state.Done? then Ok((trailers, decodedLen)) else Err(UnexpectedEof)
    {
      if state.Done? {
        return Ok((trailers, decodedLen));
      }
      return Err(UnexpectedEof);
    }
  }

  /** Taking a run of data bytes at once is taking them one by one. */
  lemma {:induction false} RunData(s: Stream, input: seq<Byte>, k: nat)
    requires s.state.Data? && k <= |input| && k <= s.state.remaining
    ensures Run(s, input) == Run(AfterData(s, input[..k]), input[k..])
    decreases k
  {
    hide Run, Step, AfterData;
    if k == 0 {
      AfterNoData(s);
      assert input[..0] == [] && input[0..] == input;
    } else {
      var b, rest := input[0], input[1..];
      RunCons(s, b, rest);
      OneData(s, b);
      assert input == [b] + rest;
      if k == 1 {
        assert input[..1] == [b];
      } else {
        RunData(AfterData(s, [b]), rest, k - 1);
        AfterMoreData(s, [b], rest[..k - 1]);
        assert [b] + rest[..k - 1] == input[..k] && rest[k - 1..] == input[k..];
      }
    }
  }

  lemma RunDataAt(s: Stream, input: seq<Byte>, i: nat, k: nat)
    requires s.state.Data? && i + k <= |input| && k <= s.state.remaining
    ensures Run(s, input[i..]) == Run(AfterData(s, input[i..i + k]), input[i + k..])
  {
    hide Run, AfterData;
    RunData(s, input[i..], k);
    assert input[i..][..k] == input[i..i + k] && input[i..][k..] == input[i + k..];
  }

  lemma AfterNoData(s: Stream)
    requires s.state.Data?
    ensures AfterData(s, []) == s
  {
    assert s.out + [] == s.out;
  }

  lemma OneData(s: Stream, b: Byte)
    requires s.state.Data?
    ensures Step(s, b) == Ok(AfterData(s, [b]))
    ensures s.state.remaining > 1 ==>
      AfterData(s, [b]).state.Data? && AfterData(s, [b]).state.remaining == s.state.remaining - 1
  {
  }

  lemma AfterMoreData(s: Stream, a: seq<Byte>, b: seq<Byte>)
    requires s.state.Data? && |a| + |b| <= s.state.remaining && AfterData(s, a).state.Data?
    requires |b| <= AfterData(s, a).state.remaining
    ensures AfterData(AfterData(s, a), b) == AfterData(s, a + b)
  {
    assert s.out + a + b == s.out + (a + b);
  }

  function AfterData(s: Stream, part: seq<Byte>): Stream
    requires s.state.Data? && |part| <= s.state.remaining
  {
    s.(state := if |part| == s.state.remaining then DataCrlf(false) else Data(s.state.remaining - |part|),
       totalRaw := s.totalRaw + |part|, decodedLen := s.decodedLen + |part|, out := s.out + part)
  }

  lemma RunDataCrlfAt(s: Stream, input: seq<Byte>, i: nat)
    requires s.state.DataCrlf? && i < |input|
    ensures var next := if s.state.seenCr then Header else DataCrlf(true);
      Run(s, input[i..]) ==
        if input[i] != (if s.state.seenCr then LF else CR) then Err(InvalidChunkHeader)
        else Run(s.(totalRaw := s.totalRaw + 1, state := next), input[i + 1..])
  {
    hide Run;
    RunCons(s, input[i], input[i + 1..]);
    assert input[i..] == [input[i]] + input[i + 1..];
  }

  // ---- A body in slices ----

  function RunSlices(s: Stream, slices: seq<seq<Byte>>): Result<Stream>
    decreases |slices|
  {
    if slices == [] then Ok(s)
    else
      var t :- Run(s, slices[0]);
      RunSlices(t, slices[1..])
  }

  function StreamDecode(slices: seq<seq<Byte>>): Result<Decoded> {
    var s :- RunSlices(START, slices);
    if s.state.Done? then Ok(Decoded(s.out, s.trailers)) else Err(UnexpectedEof)
  }

  /** Feeding a body in slices is feeding it whole. */
  lemma {:induction false} SlicingDoesNotMatter(s: Stream, slices: seq<seq<Byte>>)
    ensures RunSlices(s, slices).Ok? ==> Run(s, Flatten(slices)) == RunSlices(s, slices)
    ensures RunSlices(s, slices).Err? ==>
      Run(s, Flatten(slices)).Err? && SameError(RunSlices(s, slices).error, Run(s, Flatten(slices)).error)
    decreases |slices|
  {
    hide Run;
    if slices == [] {
      RunEmpty(s);
    } else {
      RunIsHomomorphic(s, slices[0], Flatten(slices[1..]));
      if Run(s, slices[0]).Ok? {
        SlicingDoesNotMatter(Run(s, slices[0]).value, slices[1..]);
      }
    }
  }

  /** However a body is cut, the decoder ends in the same state or with the same error. */
  lemma SlicingsAgree(s: Stream, a: seq<seq<Byte>>, b: seq<seq<Byte>>)
    requires Flatten(a) == Flatten(b)
    ensures match RunSlices(s, a)
      case Ok(t) => RunSlices(s, b) == Ok(t)
      case Err(e) => RunSlices(s, b).Err? && SameError(e, RunSlices(s, b).error)
  {
    hide Run, RunSlices, Flatten;
    SlicingDoesNotMatter(s, a);
    SlicingDoesNotMatter(s, b);
  }

  /** The documented use of the class: push every slice, then finish. */
  method DecodeSlices(slices: seq<seq<Byte>>) returns (r: Result<Decoded>)
    ensures r == StreamDecode(slices)
  {
    hide Run;
    var decoder := new IncrementalDecoder();
    var plain: seq<Byte> := [];
    assert slices[0..] == slices;
    for i := 0 to |slices|
      invariant RunSlices(START, slices) == RunSlices(decoder.View(), slices[i..])
      invariant plain == decoder.emitted
    {
      assert slices[i..][0] == slices[i] && slices[i..][1..] == slices[i + 1..];
      var out := decoder.Push(slices[i]);
      if out.Err? {
        return Err(out.error);
      }
      plain := plain + out.value;
    }
    var done := decoder.Finish();
    if done.Err? {
      return Err(done.error);
    }
    return Ok(Decoded(plain, done.value.0));
  }
}
