/** The translation as the program runs it: over the UTF-8 bytes of a pattern, one byte read as
    a character at a time. */
module GlobBytes {
  import opened Basics
  import opened Bytes
  import opened Text
  import opened Glob

  // ---- Slices of a string ----

  /** `str::is_char_boundary`. */
  predicate IsBoundary(s: seq<Byte>, i: nat) {
    i == 0 || i == |s| || (i < |s| && !Continuation(s[i]))
  }

  /** `&s[i..j]`: panics unless both ends are character boundaries. */
  function Slice(s: seq<Byte>, i: nat, j: nat): Option<seq<Byte>> {
    if i <= j && IsBoundary(s, i) && IsBoundary(s, j) then Some(s[i..j]) else None
  }

  // ---- The translation ----

  const STAR: Byte := 42
  const QUESTION: Byte := 63

  datatype Outcome = Regex(text: seq<Byte>) | EmptyPattern | Panic

  /** `char::len_utf8` of a byte read as a character: U+0080 to U+00FF take two bytes. */
  function LenUtf8(b: Byte): nat { if b < 0x80 then 1 else 2 }

  /** `regex::escape`; only ASCII characters are escaped. */
  function EscapeBytes(s: seq<Byte>): seq<Byte> {
    if s == [] then []
    else (if s[0] < 0x80 && IsMeta(s[0] as char) then [92, s[0]] else [s[0]]) + EscapeBytes(s[1..])
  }

  /** What the loop appends from byte `i` on, or `None` when it panics. */
  function TranslateFrom(s: seq<Byte>, i: nat): Option<seq<Byte>>
    requires i <= |s|
    decreases |s| - i
  {
    if i == |s| then Some([])
    else if s[i] == STAR && i + 1 < |s| && s[i + 1] == STAR then Prepend(Utf8(".*"), TranslateFrom(s, i + 2))
    else if s[i] == STAR then Prepend(Utf8("[^/]*"), TranslateFrom(s, i + 1))
    else if s[i] == QUESTION then Prepend(Utf8("[^/]"), TranslateFrom(s, i + 1))
    else
      var j := i + LenUtf8(s[i]);
      match Slice(s, i, j)
      case None => None
      case Some(t) => Prepend(EscapeBytes(t), TranslateFrom(s, j))
  }

  /** The loop panics on a well-formed pattern exactly when some scalar value is three or four
      bytes wide: its lead byte, read as a character, is taken to be two bytes wide. */
  lemma PanicsIffWide(s: seq<Byte>)
    requires ValidUtf8(s)
    ensures TranslateFrom(s, 0).None? <==> HasWide(s)
  {
    assert s[0..] == s;
    PanicsFrom(s, 0);
  }

  lemma StartIsBoundary(s: seq<Byte>, i: nat)
    requires i <= |s| && ValidUtf8(s[i..])
    ensures IsBoundary(s, i)
  {
    assert i < |s| ==> s[i..][0] == s[i];
  }

  lemma WidthShowsInBytes(s: seq<Byte>)
    requires s != [] && ScalarWidth(s) > 0
    ensures ScalarWidth(s) == 1 <==> s[0] < 0x80
    ensures ScalarWidth(s) >= 3 ==> |s| >= 3 && Continuation(s[2])
  {
  }

  lemma StarIsNarrow(s: seq<Byte>, i: nat)
    requires i < |s| && ValidUtf8(s[i..]) && s[i] < 0x80
    ensures ValidUtf8(s[i + 1..]) && (HasWide(s[i..]) <==> HasWide(s[i + 1..]))
  {
    hide ScalarWidth, Continuation;
    WidthShowsInBytes(s[i..]);
    assert s[i..][0] == s[i] && s[i..][1..] == s[i + 1..];
  }

  /** What a slice meets at a scalar value of each width. */
  lemma SliceAt(s: seq<Byte>, i: nat)
    requires i < |s| && ValidUtf8(s[i..])
    ensures var w, j := ScalarWidth(s[i..]), i + LenUtf8(s[i]);
      && 0 < w && i + w <= |s| && ValidUtf8(s[i + w..]) && (w == 1 <==> s[i] < 0x80)
      && (w <= 2 ==> j == i + w && Slice(s, i, j).Some? && (HasWide(s[i..]) <==> HasWide(s[j..])))
      && (w >= 3 ==> Slice(s, i, j).None? && HasWide(s[i..]))
  {
    hide ScalarWidth, Continuation;
    var rest := s[i..];
    var w := ScalarWidth(rest);
    WidthShowsInBytes(rest);
    assert rest[0] == s[i] && rest[w..] == s[i + w..];
    StartIsBoundary(s, i);
    StartIsBoundary(s, i + w);
    if w >= 3 {
      assert rest[2] == s[i + 2];
    }
  }

  lemma {:induction false} PanicsFrom(s: seq<Byte>, i: nat)
    requires i <= |s| && ValidUtf8(s[i..])
    ensures TranslateFrom(s, i).None? <==> HasWide(s[i..])
    decreases |s| - i
  {
    hide EscapeBytes, Utf8, ScalarWidth, Continuation, ValidUtf8, HasWide, Slice;
    if i == |s| {
      assert s[i..] == [];
      NothingIsWide();
    } else if s[i] == STAR && i + 1 < |s| && s[i + 1] == STAR {
      StarIsNarrow(s, i);
      StarIsNarrow(s, i + 1);
      PanicsFrom(s, i + 2);
    } else {
      SliceAt(s, i);
      var w := ScalarWidth(s[i..]);
      if w <= 2 {
        PanicsFrom(s, i + w);
      }
    }
  }

  lemma NothingIsWide()
    ensures ValidUtf8([]) && !HasWide([])
  {
  }

  /** On the other patterns it prints, byte for byte, the encoding of the translation. */
  lemma {:induction false} FollowsCharacters(before: seq<Byte>, p: string)
    requires forall i :: 0 <= i < |p| ==> p[i] as int < 0x800
    ensures TranslateFrom(before + Utf8(p), |before|) == Some(Utf8(Translate(p)))
    decreases |p|
  {
    hide TranslateFrom, Utf8, Translate;
    if p == "" {
      FollowsNothing(before);
    } else if p[0] == '*' && |p| >= 2 && p[1] == '*' {
      TwoStars(p);
      assert before + Utf8(p) == (before + [STAR, STAR]) + Utf8(p[2..]);
      FollowsCharacters(before + [STAR, STAR], p[2..]);
      FollowsTwoStars(before, p);
    } else {
      Utf8Cons(p);
      assert before + Utf8(p) == (before + Utf8Char(p[0])) + Utf8(p[1..]);
      FollowsCharacters(before + Utf8Char(p[0]), p[1..]);
      if p[0] == '*' || p[0] == '?' {
        FollowsWildcard(before, p);
      } else {
        FollowsLiteral(before, p);
      }
    }
  }

  lemma Utf8Cons(p: string)
    requires p != ""
    ensures Utf8(p) == Utf8Char(p[0]) + Utf8(p[1..])
  {
  }

  lemma TwoStars(p: string)
    requires |p| >= 2 && p[0] == '*' && p[1] == '*'
    ensures Utf8(p) == [STAR, STAR] + Utf8(p[2..])
  {
    Utf8Cons(p[1..]);
    assert p[1..][1..] == p[2..];
  }

  lemma FollowsNothing(before: seq<Byte>)
    ensures TranslateFrom(before + Utf8(""), |before|) == Some(Utf8(Translate("")))
  {
  }

  lemma FollowsTwoStars(before: seq<Byte>, p: string)
    requires |p| >= 2 && p[0] == '*' && p[1] == '*'
    requires |before| + 2 <= |before + Utf8(p)|
    requires TranslateFrom(before + Utf8(p), |before| + 2) == Some(Utf8(Translate(p[2..])))
    ensures TranslateFrom(before + Utf8(p), |before|) == Some(Utf8(Translate(p)))
  {
    hide Utf8;
    TwoStars(p);
    Utf8Concat(".*", Translate(p[2..]));
    var s, i := before + Utf8(p), |before|;
    assert s[i] == STAR && s[i + 1] == STAR;
  }

  lemma FollowsWildcard(before: seq<Byte>, p: string)
    requires p != "" && (p[0] == '?' || (p[0] == '*' && (|p| < 2 || p[1] != '*')))
    requires |before| + 1 <= |before + Utf8(p)|
    requires TranslateFrom(before + Utf8(p), |before| + 1) == Some(Utf8(Translate(p[1..])))
    ensures TranslateFrom(before + Utf8(p), |before|) == Some(Utf8(Translate(p)))
  {
    hide Utf8;
    Utf8Cons(p);
    if p[0] == '*' {
      NoSecondStar(p);
      Utf8Concat("[^/]*", Translate(p[1..]));
    } else {
      Utf8Concat("[^/]", Translate(p[1..]));
    }
  }

  lemma FollowsLiteral(before: seq<Byte>, p: string)
    requires p != "" && p[0] != '*' && p[0] != '?' && p[0] as int < 0x800
    requires |before| + |Utf8Char(p[0])| <= |before + Utf8(p)|
    requires TranslateFrom(before + Utf8(p), |before| + |Utf8Char(p[0])|) == Some(Utf8(Translate(p[1..])))
    ensures TranslateFrom(before + Utf8(p), |before|) == Some(Utf8(Translate(p)))
  {
    hide Utf8, Escape, EscapeBytes, Slice, Utf8Char;
    Utf8Cons(p);
    NextIsLead(p[1..]);
    OneCharacter(before, p[0], Utf8(p[1..]));
    EscapedCharacter(p[0]);
    Utf8Concat(Escape(p[0]), Translate(p[1..]));
    assert before + Utf8Char(p[0]) + Utf8(p[1..]) == before + Utf8(p);
  }

  lemma NextIsLead(p: string)
    ensures Utf8(p) == [] || !Continuation(Utf8(p)[0])
  {
  }

  lemma NoSecondStar(p: string)
    requires |p| >= 1 && (|p| < 2 || p[1] != '*')
    ensures Utf8(p[1..]) == [] || Utf8(p[1..])[0] != STAR
  {
  }

  /** A character below U+0800 is taken whole. */
  lemma OneCharacter(before: seq<Byte>, c: char, rest: seq<Byte>)
    requires c as int < 0x800 && (rest == [] || !Continuation(rest[0]))
    ensures var s, i := before + Utf8Char(c) + rest, |before|;
      && i < |s| && s[i] == Utf8Char(c)[0]
      && i + LenUtf8(s[i]) == i + |Utf8Char(c)|
      && Slice(s, i, i + LenUtf8(s[i])) == Some(Utf8Char(c))
    ensures c != '*' ==> Utf8Char(c)[0] != STAR
    ensures c != '?' ==> Utf8Char(c)[0] != QUESTION
  {
    var s, i := before + Utf8Char(c) + rest, |before|;
    assert s[i..i + |Utf8Char(c)|] == Utf8Char(c);
  }

  lemma EscapedCharacter(c: char)
    requires c as int < 0x800
    ensures EscapeBytes(Utf8Char(c)) == Utf8(Escape(c))
  {
    var b := Utf8Char(c);
    assert [c][1..] == "" && Utf8([c]) == b + [];
    if IsMeta(c) {
      assert c as int < 0x80 && (c as int) as char == c;
      assert b[1..] == [] && ['\\', c][1..] == [c];
      assert EscapeBytes(b) == [92, b[0]] + [];
      assert Utf8(['\\', c]) == [92] + Utf8([c]);
    } else if |b| == 1 {
      assert (b[0] as char) == c && b[1..] == [];
      assert EscapeBytes(b) == b + [];
    } else {
      assert b[1..] == [b[1]] && b[1..][1..] == [];
      assert EscapeBytes(b[1..]) == [b[1]] + [];
      assert EscapeBytes(b) == [b[0]] + [b[1]];
    }
  }

  /** `glob_to_regex`. */
  method GlobToRegex(pattern: string) returns (r: Outcome)
    ensures r.EmptyPattern? <==> IsBlank(pattern)
    ensures r.Panic? <==> !IsBlank(pattern) && exists i :: 0 <= i < |pattern| && pattern[i] as int >= 0x800
    ensures r.Regex? ==> r.text == Utf8("^" + Translate(pattern) + "$")
  {
    hide IsWhiteSpace, EscapeBytes, IsMeta, Translate, Utf8;
    if IsBlank(pattern) {
      return EmptyPattern;
    }
    var bytes := Utf8(pattern);
    ghost var whole := TranslateFrom(bytes, 0);
    TranslationOutcome(pattern);
    var out, i := [], 0;
    assert whole.Some? ==> [] + whole.value == whole.value;
    while i < |bytes|
      invariant 0 <= i <= |bytes|
      invariant whole == Prepend(out, TranslateFrom(bytes, i))
    {
      if bytes[i] == STAR {
        if i + 1 < |bytes| && bytes[i + 1] == STAR {
          PrependTwice(out, Utf8(".*"), TranslateFrom(bytes, i + 2));
          out, i := out + Utf8(".*"), i + 2;
        } else {
          PrependTwice(out, Utf8("[^/]*"), TranslateFrom(bytes, i + 1));
          out, i := out + Utf8("[^/]*"), i + 1;
        }
      } else if bytes[i] == QUESTION {
        PrependTwice(out, Utf8("[^/]"), TranslateFrom(bytes, i + 1));
        out, i := out + Utf8("[^/]"), i + 1;
      } else {
        var j := i + LenUtf8(bytes[i]);
        var text := Slice(bytes, i, j);
        if text.None? {
          return Panic;
        }
        PrependTwice(out, EscapeBytes(text.value), TranslateFrom(bytes, j));
        out, i := out + EscapeBytes(text.value), j;
      }
    }
    assert out + [] == out;
    Anchored(Translate(pattern));
    return Regex(Utf8("^") + out + Utf8("$"));
  }

  lemma Anchored(t: string)
    ensures Utf8("^" + t + "$") == Utf8("^") + Utf8(t) + Utf8("$")
  {
    Utf8Concat("^" + t, "$");
    Utf8Concat("^", t);
  }

  /** The byte loop refines the translation of characters, and panics exactly from U+0800 up. */
  lemma TranslationOutcome(p: string)
    ensures var r := TranslateFrom(Utf8(p), 0);
      if exists i :: 0 <= i < |p| && p[i] as int >= 0x800 then r.None? else r == Some(Utf8(Translate(p)))
  {
    hide TranslateFrom, Utf8, Translate, HasWide;
    WideCharacters(p);
    PanicsIffWide(Utf8(p));
    if forall i :: 0 <= i < |p| ==> p[i] as int < 0x800 {
      FollowsCharacters([], p);
      assert [] + Utf8(p) == Utf8(p);
    }
  }

  /** One ideograph, U+4E2D, is enough. */
  lemma IdeographPanics()
    ensures Utf8(['\U{4E2D}']) == [0xE4, 0xB8, 0xAD]
    ensures TranslateFrom(Utf8(['\U{4E2D}']), 0).None?
  {
    TranslationOutcome(['\U{4E2D}']);
    assert ['\U{4E2D}'][0] as int == 0x4E2D;
  }
}
