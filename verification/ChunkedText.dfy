/** What chunk headers and trailer lines mean, in characters. */
module ChunkedText {
  import opened Basics
  import opened Bytes
  import opened Text
  import opened ChunkedFormat
  import opened ChunkedWhole

  // ---- Hexadecimal text ----

  const LOWER: string := "0123456789abcdef"
  const UPPER: string := "0123456789ABCDEF"

  predicate DigitIs(c: char, d: int) { 0 <= d < 16 && (c == LOWER[d] || c == UPPER[d]) }

  /** `digits` is a numeral for `n` to the base 16, in either case. */
  ghost predicate Denotes(digits: string, n: int) {
    if digits == "" then n == 0
    else
      var k := |digits| - 1;
      exists m, d :: Denotes(digits[..k], m) && DigitIs(digits[k], d) && n == 16 * m + d
  }

  lemma DigitIsHex(c: char, d: int)
    ensures DigitIs(c, d) <==> c as int < 0x80 && IsHex(c as int) && DigitValue(c as int) == d
  {
  }

  lemma HexSnoc(s: seq<Byte>, b: Byte)
    ensures AllHex(s + [b]) <==> AllHex(s) && IsHex(b)
    ensures AllHex(s + [b]) ==> HexValue(s + [b]) == 16 * HexValue(s) + DigitValue(b)
  {
    var t := s + [b];
    assert t[..|s|] == s && t[|s|] == b;
    assert forall i :: 0 <= i < |s| ==> t[i] == s[i];
  }

  lemma LastDigit(digits: string, n: int) returns (m: int, d: int)
    requires digits != "" && Denotes(digits, n)
    ensures var k := |digits| - 1; Denotes(digits[..k], m) && DigitIs(digits[k], d) && n == 16 * m + d
  {
    var k := |digits| - 1;
    m, d :| Denotes(digits[..k], m) && DigitIs(digits[k], d) && n == 16 * m + d;
  }

  lemma {:induction false} HexDenotes(digits: string)
    ensures AllHex(Utf8(digits)) ==> Denotes(digits, HexValue(Utf8(digits)))
    ensures forall n :: Denotes(digits, n) ==> AllHex(Utf8(digits)) && HexValue(Utf8(digits)) == n
    decreases |digits|
  {
    hide Utf8Char, HexValue, DigitIs, AllHex;
    if digits == "" {
      NoHex();
    } else {
      var k := |digits| - 1;
      var init, c := digits[..k], digits[k];
      HexDenotes(init);
      Utf8Concat(init, [c]);
      Utf8One(c);
      assert digits == init + [c];
      if c as int < 0x80 {
        assert Utf8Char(c) == [c as int] by {
          AsciiIsOneByte(c);
        }
        HexSnoc(Utf8(init), c as int);
        DigitIsHex(c, if IsHex(c as int) then DigitValue(c as int) else 0);
      } else {
        WideIsNotHex(Utf8(init), c);
      }
      forall n | Denotes(digits, n) ensures AllHex(Utf8(digits)) && HexValue(Utf8(digits)) == n {
        var m, d := LastDigit(digits, n);
        DigitIsHex(c, d);
      }
    }
  }

  lemma NoHex()
    ensures AllHex([]) && HexValue([]) == 0
  {
  }

  lemma AsciiIsOneByte(c: char)
    requires c as int < 0x80
    ensures Utf8Char(c) == [c as int]
  {
  }

  lemma WideIsNotHex(s: seq<Byte>, c: char)
    requires c as int >= 0x80
    ensures !AllHex(s + Utf8Char(c))
  {
    assert !IsHex((s + Utf8Char(c))[|s|]);
  }

  // ---- Chunk headers ----

  /** White space, an optional plus sign, a numeral, white space, and possibly an extension. */
  ghost predicate IsHeader(p: string, a: string, sign: string, digits: string, b: string, extension: string) {
    && p == a + sign + digits + b + extension
    && IsBlank(a) && IsBlank(b) && (sign == "" || sign == "+") && digits != ""
    && (extension == "" || extension[0] == ';')
  }

  ghost predicate Announces(p: string, n: int) {
    exists a, sign, digits, b, extension :: IsHeader(p, a, sign, digits, b, extension) && Denotes(digits, n)
  }

  lemma {:induction false} NumeralChars(digits: string, n: int)
    requires Denotes(digits, n)
    ensures forall i :: 0 <= i < |digits| ==>
      !IsWhiteSpace(digits[i]) && digits[i] != ';' && digits[i] != '+' && digits[i] as int < 0x80
    decreases |digits|
  {
    hide IsWhiteSpace, DigitIs;
    if digits != "" {
      var k := |digits| - 1;
      var m, d := LastDigit(digits, n);
      NumeralChars(digits[..k], m);
      DigitChar(digits[k], d);
    }
  }

  lemma DigitChar(c: char, d: int)
    requires DigitIs(c, d)
    ensures !IsWhiteSpace(c) && c != ';' && c != '+' && c as int < 0x80
  {
    DigitIsHex(c, d);
  }

  lemma SpaceChar(c: char)
    requires IsWhiteSpace(c)
    ensures c != ';' && c != '+'
  {
  }

  /** The text before an extension. */
  lemma FieldOf(field: string, extension: string)
    requires ';' !in field && (extension == "" || extension[0] == ';')
    ensures var s := Utf8(field + extension); var cut := IndexOf(s, SEMICOLON);
      (if cut.Some? then s[..cut.value] else s) == Utf8(field)
  {
    hide Utf8, IndexOf;
    if extension == "" {
      assert field + extension == field;
      AsciiIn(field, ';');
      NotFound(Utf8(field), SEMICOLON);
    } else {
      AsciiCut(field, ';', extension[1..]);
      assert field + [';'] + extension[1..] == field + extension;
    }
  }

  lemma NotFound(s: seq<Byte>, b: Byte)
    requires b !in s
    ensures IndexOf(s, b).None?
  {
  }

  lemma SignedNumber(sign: string, digits: string, n: int)
    requires (sign == "" || sign == "+") && digits != "" && Denotes(digits, n)
    ensures Utf8(sign + digits) != []
    ensures ParseHex(Utf8(sign + digits)) == if n <= USIZE_MAX then Some(n) else None
  {
    hide Utf8Char, HexValue, Denotes, AllHex;
    HexDenotes(digits);
    NumeralChars(digits, n);
    CharIsNotEmpty(digits[0]);
    AsciiByte('+', digits[0]);
    Utf8Concat(sign, digits);
    if sign == "+" {
      Utf8One('+');
      AsciiIsOneByte('+');
      assert Utf8(sign + digits)[1..] == Utf8(digits);
    } else {
      assert sign + digits == digits;
    }
  }

  lemma HeaderForward(p: string, a: string, sign: string, digits: string, b: string, extension: string, n: int)
    requires IsHeader(p, a, sign, digits, b, extension) && Denotes(digits, n)
    ensures HeaderSize(Utf8(p)) == if n <= USIZE_MAX then Ok(n) else Err(InvalidChunkSize)
  {
    hide Utf8, IndexOf, Trim, ValidUtf8, ParseHex, Denotes, IsWhiteSpace;
    hide IsBlank, IsTrimmed, Utf8Char;
    var body, field := sign + digits, a + (sign + digits) + b;
    assert a + sign + digits + b == field;
    Utf8IsValid(p);
    assert ';' !in field by {
      NumeralChars(digits, n);
      FieldHasNoSemicolon(a, sign, digits, b);
    }
    FieldOf(field, extension);
    assert Trim(Utf8(field)) == Utf8(body) by {
      SignedEnds(sign, digits, n);
      Padded(a, body, b);
      TrimOf(field, body);
    }
    SignedNumber(sign, digits, n);
  }

  lemma SignedEnds(sign: string, digits: string, n: int)
    requires (sign == "" || sign == "+") && digits != "" && Denotes(digits, n)
    ensures var body := sign + digits; !IsWhiteSpace(body[0]) && !IsWhiteSpace(body[|body| - 1])
  {
    hide IsWhiteSpace, Denotes;
    var body := sign + digits;
    NumeralChars(digits, n);
    PlusIsText();
    assert body[0] == (if sign == "+" then '+' else digits[0]) && body[|body| - 1] == digits[|digits| - 1];
  }

  lemma Padded(a: string, body: string, b: string)
    requires IsBlank(a) && IsBlank(b) && body != ""
    requires !IsWhiteSpace(body[0]) && !IsWhiteSpace(body[|body| - 1])
    ensures IsTrimmed(a + body + b, body)
  {
    hide IsWhiteSpace;
    var field := a + body + b;
    assert field[..|a|] == a && field[|a| + |body|..] == b && field[|a|..|a| + |body|] == body;
    assert TrimmedAt(field, body, |a|, |a| + |body|);
  }

  lemma PlusIsText()
    ensures !IsWhiteSpace('+')
  {
  }

  lemma FieldHasNoSemicolon(a: string, sign: string, digits: string, b: string)
    requires IsBlank(a) && IsBlank(b) && (sign == "" || sign == "+")
    requires forall i :: 0 <= i < |digits| ==> digits[i] != ';'
    ensures ';' !in a + sign + digits + b
  {
    BlankHasNoSemicolon(a);
    BlankHasNoSemicolon(b);
  }

  lemma BlankHasNoSemicolon(a: string)
    requires IsBlank(a)
    ensures ';' !in a
  {
    if ';' in a {
      var i :| 0 <= i < |a| && a[i] == ';';
      SpaceChar(a[i]);
    }
  }

  lemma FirstSemicolon(p: string) returns (field: string, extension: string)
    ensures p == field + extension && ';' !in field && (extension == "" || extension[0] == ';')
  {
    if ';' in p {
      var i := 0;
      while p[i] != ';'
        invariant 0 <= i < |p| && ';' !in p[..i] && ';' in p[i..]
        decreases |p| - i
      {
        assert p[i..] == [p[i]] + p[i + 1..] && p[..i + 1] == p[..i] + [p[i]];
        i := i + 1;
      }
      field, extension := p[..i], p[i..];
    } else {
      field, extension := p, "";
    }
  }

  lemma SignOf(t: string, n: nat) returns (sign: string, digits: string)
    requires Utf8(t) != [] && ParseHex(Utf8(t)) == Some(n)
    ensures t == sign + digits && (sign == "" || sign == "+") && digits != "" && Denotes(digits, n)
  {
    hide Utf8Char, HexValue, Denotes, AllHex;
    AsciiByte('+', t[0]);
    sign, digits := "", t;
    if |Utf8(t)| >= 2 && Utf8(t)[0] == PLUS {
      sign, digits := "+", t[1..];
      AsciiIsOneByte('+');
      assert Utf8(t)[1..] == Utf8(t[1..]);
    }
    HexDenotes(digits);
  }

  /** A header announces `n` bytes exactly when it is a numeral for `n`, in either case, possibly
      signed, possibly amid white space and possibly before a semicolon and anything else. Every
      other text is an invalid size, and bytes that are no text an invalid header. */
  lemma HeaderMeans(p: string, n: nat)
    ensures HeaderSize(Utf8(p)) == Ok(n) <==> n <= 0xFFFF_FFFF_FFFF_FFFF && Announces(p, n)
    ensures HeaderSize(Utf8(p)).Err? ==> HeaderSize(Utf8(p)).error == InvalidChunkSize
  {
    hide Utf8, IndexOf, Trim, ValidUtf8, ParseHex, Denotes, IsWhiteSpace, IsHeader;
    Utf8IsValid(p);
    if HeaderSize(Utf8(p)) == Ok(n) {
      var field, extension := FirstSemicolon(p);
      FieldOf(field, extension);
      var t := TrimIsTextual(field);
      HexFits(Utf8(t), n);
      var sign, digits := SignOf(t, n);
      var i, j :| TrimmedAt(field, t, i, j);
      assert field == field[..i] + t + field[j..];
      HeaderIntro(p, field[..i], sign, digits, field[j..], extension);
    }
    if Announces(p, n) {
      var a, sign, digits, b, extension :| IsHeader(p, a, sign, digits, b, extension) && Denotes(digits, n);
      HeaderForward(p, a, sign, digits, b, extension, n);
    }
  }

  lemma HexFits(s: seq<Byte>, n: nat)
    requires ParseHex(s) == Some(n)
    ensures n <= USIZE_MAX
  {
  }

  lemma HeaderIntro(p: string, a: string, sign: string, digits: string, b: string, extension: string)
    requires p == (a + (sign + digits) + b) + extension && IsBlank(a) && IsBlank(b)
    requires (sign == "" || sign == "+") && digits != "" && (extension == "" || extension[0] == ';')
    ensures IsHeader(p, a, sign, digits, b, extension)
  {
    assert a + (sign + digits) == a + sign + digits;
  }

  /** Bytes that are no text at all. */
  lemma OnlyTextIsRead(s: seq<Byte>)
    requires !ValidUtf8(s)
    ensures forall p :: Utf8(p) != s
    ensures HeaderSize(s) == Err(InvalidChunkHeader) && LineTrailer(s) == Err(InvalidChunkHeader)
  {
    forall p ensures Utf8(p) != s {
      Utf8IsValid(p);
    }
  }

  // ---- Trailer lines ----

  /** A line is cut at its first colon, and white space is taken off both parts. */
  ghost predicate Reads(p: string, k: string, v: string) {
    exists x, y :: p == x + ":" + y && ':' !in x && IsTrimmed(x, k) && IsTrimmed(y, v)
  }

  lemma ReadsForward(p: string, x: string, y: string, k: string, v: string)
    requires p == x + ":" + y && ':' !in x && IsTrimmed(x, k) && IsTrimmed(y, v)
    ensures LineTrailer(Utf8(p)) == Ok(Trailer(Utf8(k), Utf8(v)))
  {
    hide Utf8, IndexOf, Trim, ValidUtf8, IsTrimmed;
    Utf8IsValid(p);
    AsciiCut(x, ':', y);
    TrimOf(x, k);
    TrimOf(y, v);
  }

  lemma FirstColon(p: string) returns (x: string, y: string)
    requires ':' in p
    ensures p == x + ":" + y && ':' !in x
  {
    var i := 0;
    while p[i] != ':'
      invariant 0 <= i < |p| && ':' !in p[..i] && ':' in p[i..]
      decreases |p| - i
    {
      assert p[i..] == [p[i]] + p[i + 1..] && p[..i + 1] == p[..i] + [p[i]];
      i := i + 1;
    }
    x, y := p[..i], p[i + 1..];
  }

  /** A line reads as the trailer `k`, `v` exactly when those are its parts before and after the
      first colon, without white space at their ends; a line without a colon is refused. */
  lemma TrailerMeans(p: string, k: string, v: string)
    ensures LineTrailer(Utf8(p)) == Ok(Trailer(Utf8(k), Utf8(v))) <==> Reads(p, k, v)
    ensures ':' !in p <==> LineTrailer(Utf8(p)) == Err(InvalidChunkHeader)
  {
    hide Utf8, IndexOf, Trim, ValidUtf8, IsTrimmed;
    Utf8IsValid(p);
    if ':' in p {
      var x, y := FirstColon(p);
      var t := TrimIsTextual(x);
      var u := TrimIsTextual(y);
      ReadsForward(p, x, y, t, u);
      if LineTrailer(Utf8(p)) == Ok(Trailer(Utf8(k), Utf8(v))) {
        Utf8Injective(t, k);
        Utf8Injective(u, v);
      }
    } else {
      AsciiIn(p, ':');
      NotFound(Utf8(p), COLON);
    }
    if Reads(p, k, v) {
      var x, y :| p == x + ":" + y && ':' !in x && IsTrimmed(x, k) && IsTrimmed(y, v);
      ReadsForward(p, x, y, k, v);
    }
  }

  /** The body `0`, `x: 1` and an empty line: no data, and the trailer `x` with the value `1`. */
  lemma TrailerIsTrimmed()
    ensures var f := Frame([], Utf8("0"), [Utf8("x: 1")]);
      Decode(Render(f)) == Ok(Decoded([], [Trailer(Utf8("x"), Utf8("1"))]))
  {
    hide LineTrailer, HeaderSize, Parse, Utf8, IsWhiteSpace;
    var f, line := Frame([], Utf8("0"), [Utf8("x: 1")]), "x: 1";
    assert HeaderSize(Utf8("0")) == Ok(0) by {
      assert Denotes(""[..0], 0) && DigitIs('0', 0);
      assert "0"[..0] == "" && Denotes("0"[..0], 0) && DigitIs("0"[0], 0);
      assert Denotes("0", 0);
      assert IsHeader("0", "", "", "0", "", "");
      HeaderMeans("0", 0);
    }
    assert LineTrailer(Utf8(line)) == Ok(Trailer(Utf8("x"), Utf8("1"))) by {
      SampleChars();
      assert line == "x" + ":" + " 1" && ':' !in "x";
      assert "x"[0..1] == "x" && " 1"[1..2] == "1" && " 1"[..1] == " " && " 1"[2..] == "";
      assert IsTrimmed("x", "x") by {
        assert TrimmedAt("x", "x", 0, 1);
      }
      assert IsTrimmed(" 1", "1") by {
        assert TrimmedAt(" 1", "1", 1, 2);
      }
      ReadsForward(line, "x", " 1", "x", "1");
    }
    SampleBytes();
    assert f.lines[1..] == [];
    assert LineTrailers(f.lines) == [Trailer(Utf8("x"), Utf8("1"))] + LineTrailers(f.lines[1..]);
    assert RenderLines(f.lines) == f.lines[0] + CRLF + RenderLines(f.lines[1..]);
    assert LineTrailers([]) == [] && ChunkData([]) == [];
    assert WellFormed(f) && Meaning(f) == Decoded([], [Trailer(Utf8("x"), Utf8("1"))]);
    DecodeAcceptsExactlyTheFormat(Render(f), Meaning(f));
  }

  lemma SampleChars()
    ensures IsWhiteSpace(' ') && !IsWhiteSpace('x') && !IsWhiteSpace('1')
  {
  }

  lemma SampleBytes()
    ensures NoCrlf(Utf8("0")) && NoCrlf(Utf8("x: 1")) && |Utf8("x: 1")| == 4
  {
    Ascii("0");
    Ascii("x: 1");
  }

  /** Plain ASCII text is its own encoding. */
  lemma {:induction false} Ascii(p: string)
    requires forall i :: 0 <= i < |p| ==> p[i] as int < 0x80
    ensures |Utf8(p)| == |p| && forall i :: 0 <= i < |p| ==> Utf8(p)[i] == p[i] as int
  {
    if p != "" {
      Ascii(p[1..]);
      assert forall i :: 0 < i < |p| ==> p[i] == p[1..][i - 1];
    }
  }

  // ---- Hexadecimal output ----

  /** A size is printed in lower case and without leading zeros. */
  lemma {:induction false} HexIsPlain(n: nat)
    ensures forall i :: 0 <= i < |ToHex(n)| ==> exists d :: 0 <= d < 16 && ToHex(n)[i] == LOWER[d] as int
    ensures n == 0 ==> ToHex(n) == Utf8("0")
    ensures n > 0 ==> ToHex(n)[0] != '0' as int
    decreases n
  {
    hide Utf8;
    if n == 0 {
      Ascii("0");
    }
    LowerDigit(n % 16);
    if n >= 16 {
      HexIsPlain(n / 16);
      var init := ToHex(n / 16);
      assert ToHex(n) == init + [HexDigit(n % 16)];
      forall i | 0 <= i < |ToHex(n)| ensures exists d :: 0 <= d < 16 && ToHex(n)[i] == LOWER[d] as int {
        if i < |init| {
          assert ToHex(n)[i] == init[i];
        } else {
          assert ToHex(n)[i] == LOWER[n % 16] as int;
        }
      }
    }
  }

  lemma LowerDigit(d: nat)
    requires d < 16
    ensures HexDigit(d) == LOWER[d] as int && (d > 0 ==> HexDigit(d) != '0' as int)
  {
  }
}
