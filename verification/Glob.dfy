/** Glob patterns, the regular expressions they are translated to, and why the two agree. */
module Glob {
  import opened Basics

  // ---- Regular expressions: the fragment the translation uses ----

  datatype Atom = Dot | NotSlash | Lit(c: char)
  datatype Piece = One(atom: Atom) | Star(atom: Atom)

  /** The characters that `regex::escape` puts a backslash before. */
  predicate IsMeta(c: char) { c in "\\.+*?()|[]{}^$#&-~" }

  function Escape(c: char): string { if IsMeta(c) then ['\\', c] else [c] }

  /** The characters that mean something to a regular expression when they stand alone. */
  predicate IsOperator(c: char) { c in "\\.+*?()|[{^$" }

  /** The characters that a backslash may precede to stand for themselves: ASCII, but no letters
      or digits, which would name a class, and no angle brackets. */
  predicate IsEscapable(c: char) {
    var u := c as int;
    u < 0x80 && !(48 <= u <= 57) && !(65 <= u <= 90) && !(97 <= u <= 122) && c != '<' && c != '>'
  }

  /** The atom at the front of `s`, and its length in characters. */
  function ReadAtom(s: string): (r: Option<(Atom, nat)>)
    ensures r.Some? ==> 0 < r.value.1 <= |s|
  {
    if s == "" then None
    else if s[0] == '.' then Some((Dot, 1))
    else if |s| >= 4 && s[..4] == "[^/]" then Some((NotSlash, 4))
    else if |s| >= 2 && s[0] == '\\' && IsEscapable(s[1]) then Some((Lit(s[1]), 2))
    else if !IsOperator(s[0]) then Some((Lit(s[0]), 1))
    else None
  }

  function ReadPieces(s: string): Option<seq<Piece>>
    decreases |s|
  {
    if s == "" then Some([])
    else
      match ReadAtom(s)
      case None => None
      case Some((a, n)) =>
        var starred := n < |s| && s[n] == '*';
        match ReadPieces(s[if starred then n + 1 else n..])
        case None => None
        case Some(rest) => Some([if starred then Star(a) else One(a)] + rest)
  }

  /** An anchored expression: `^`, pieces, `$`. */
  function ReadRegex(s: string): Option<seq<Piece>> {
    if |s| >= 2 && s[0] == '^' && s[|s| - 1] == '$' then ReadPieces(s[1..|s| - 1]) else None
  }

  predicate AtomMatches(a: Atom, c: char) {
    match a
    case Dot => c != '\n'
    case NotSlash => c != '/'
    case Lit(d) => c == d
  }

  /** The language of an anchored expression. */
  predicate Matches(ps: seq<Piece>, key: string)
    decreases |key|, |ps|
  {
    if ps == [] then key == ""
    else
      match ps[0]
      case One(a) => key != "" && AtomMatches(a, key[0]) && Matches(ps[1..], key[1..])
      case Star(a) =>
        Matches(ps[1..], key) || (key != "" && AtomMatches(a, key[0]) && Matches(ps, key[1..]))
  }

  predicate AllMatch(a: Atom, s: string) { forall i :: 0 <= i < |s| ==> AtomMatches(a, s[i]) }

  lemma AllMatchCons(a: Atom, c: char, s: string)
    ensures AllMatch(a, [c] + s) <==> AtomMatches(a, c) && AllMatch(a, s)
  {
    var t := [c] + s;
    if AllMatch(a, t) {
      assert AtomMatches(a, t[0]);
      assert forall i :: 0 <= i < |s| ==> s[i] == t[i + 1];
    }
  }

  /** A starred atom takes any stretch of matching characters. */
  lemma {:induction false} StarTakesStretch(a: Atom, ps: seq<Piece>, key: string)
    ensures Matches([Star(a)] + ps, key) <==>
      exists n :: 0 <= n <= |key| && AllMatch(a, key[..n]) && Matches(ps, key[n..])
    decreases |key|
  {
    var qs := [Star(a)] + ps;
    assert qs[1..] == ps;
    assert key[0..] == key && AllMatch(a, key[..0]);
    if key != "" {
      var tail := key[1..];
      StarTakesStretch(a, ps, tail);
      forall n | 0 <= n <= |tail|
        ensures key[n + 1..] == tail[n..]
        ensures AllMatch(a, key[..n + 1]) <==> AtomMatches(a, key[0]) && AllMatch(a, tail[..n])
      {
        assert key[..n + 1] == [key[0]] + tail[..n];
        AllMatchCons(a, key[0], tail[..n]);
      }
      if AtomMatches(a, key[0]) && Matches(qs, tail) {
        var n :| 0 <= n <= |tail| && AllMatch(a, tail[..n]) && Matches(ps, tail[n..]);
        assert AllMatch(a, key[..n + 1]) && Matches(ps, key[n + 1..]);
      }
      forall n | 0 < n <= |key| && AllMatch(a, key[..n]) && Matches(ps, key[n..]) ensures Matches(qs, key) {
        assert AllMatch(a, tail[..n - 1]) && Matches(ps, tail[n - 1..]);
      }
    }
  }

  // ---- Globs ----

  /** What a pattern means: `**` is any text, `*` any text within a path segment, `?` one
      character of a segment, and any other character itself. */
  ghost predicate GlobMatches(p: string, key: string)
    decreases |p|
  {
    if p == "" then key == ""
    else if p[0] == '*' then
      if |p| >= 2 && p[1] == '*' then exists n :: 0 <= n <= |key| && GlobMatches(p[2..], key[n..])
      else exists n :: 0 <= n <= |key| && '/' !in key[..n] && GlobMatches(p[1..], key[n..])
    else if p[0] == '?' then key != "" && key[0] != '/' && GlobMatches(p[1..], key[1..])
    else key != "" && key[0] == p[0] && GlobMatches(p[1..], key[1..])
  }

  ghost predicate HasDoubleStar(p: string) { exists i :: 0 <= i < |p| - 1 && p[i] == '*' && p[i + 1] == '*' }

  // ---- The translation ----

  /** The text between the anchors. */
  function Translate(p: string): string
    decreases |p|
  {
    if p == "" then ""
    else if p[0] == '*' && |p| >= 2 && p[1] == '*' then ".*" + Translate(p[2..])
    else if p[0] == '*' then "[^/]*" + Translate(p[1..])
    else if p[0] == '?' then "[^/]" + Translate(p[1..])
    else Escape(p[0]) + Translate(p[1..])
  }

  // ---- Reading the translation back ----

  function Pieces(p: string): seq<Piece>
    decreases |p|
  {
    if p == "" then []
    else if p[0] == '*' && |p| >= 2 && p[1] == '*' then [Star(Dot)] + Pieces(p[2..])
    else if p[0] == '*' then [Star(NotSlash)] + Pieces(p[1..])
    else if p[0] == '?' then [One(NotSlash)] + Pieces(p[1..])
    else [One(Lit(p[0]))] + Pieces(p[1..])
  }

  lemma ReadOne(s: string, a: Atom, rest: string)
    requires s != "" && ReadAtom(s + rest) == Some((a, |s|)) && ReadPieces(rest).Some?
    requires rest == "" || rest[0] != '*'
    ensures ReadPieces(s + rest) == Some([One(a)] + ReadPieces(rest).value)
  {
    hide ReadAtom;
    assert (s + rest)[|s|..] == rest;
  }

  lemma ReadStar(s: string, a: Atom, rest: string)
    requires s != "" && ReadAtom(s + "*" + rest) == Some((a, |s|)) && ReadPieces(rest).Some?
    ensures ReadPieces(s + "*" + rest) == Some([Star(a)] + ReadPieces(rest).value)
  {
    hide ReadAtom;
    assert (s + "*" + rest)[|s| + 1..] == rest;
  }

  lemma ReadEscaped(c: char, rest: string)
    ensures ReadAtom(Escape(c) + rest) == Some((Lit(c), |Escape(c)|))
    ensures Escape(c)[0] != '*'
  {
    var s := Escape(c) + rest;
    if IsMeta(c) {
      assert s[0] == '\\' && s[1] == c;
      assert |s| >= 4 ==> s[..4][0] == '\\';
    } else {
      assert s[0] == c;
      assert |s| >= 4 ==> s[..4][0] == c;
    }
  }

  /** The text printed for a pattern reads back as the pattern's pieces. */
  lemma {:induction false} TranslationReadsBack(p: string)
    ensures ReadPieces(Translate(p)) == Some(Pieces(p))
    ensures Translate(p) == "" || Translate(p)[0] != '*'
    decreases |p|
  {
    hide Escape, IsMeta, ReadPieces, ReadAtom;
    if p == "" {
      ReadNothing();
    } else if p[0] == '*' && |p| >= 2 && p[1] == '*' {
      var rest := Translate(p[2..]);
      TranslationReadsBack(p[2..]);
      ReadDot(rest);
      ReadStar(".", Dot, rest);
      assert ".*" + rest == "." + "*" + rest;
    } else if p[0] == '*' {
      var rest := Translate(p[1..]);
      TranslationReadsBack(p[1..]);
      ReadNotSlash("*" + rest);
      assert "[^/]*" + rest == "[^/]" + "*" + rest;
      assert "[^/]" + "*" + rest == "[^/]" + ("*" + rest);
      ReadStar("[^/]", NotSlash, rest);
    } else if p[0] == '?' {
      var rest := Translate(p[1..]);
      TranslationReadsBack(p[1..]);
      ReadNotSlash(rest);
      ReadOne("[^/]", NotSlash, rest);
    } else {
      var rest := Translate(p[1..]);
      TranslationReadsBack(p[1..]);
      ReadEscaped(p[0], rest);
      ReadOne(Escape(p[0]), Lit(p[0]), rest);
    }
  }

  lemma ReadNothing()
    ensures ReadPieces("") == Some([])
  {
  }

  lemma ReadDot(rest: string)
    ensures ReadAtom("." + "*" + rest) == Some((Dot, 1))
  {
  }

  lemma ReadNotSlash(rest: string)
    ensures ReadAtom("[^/]" + rest) == Some((NotSlash, 4))
  {
    assert ("[^/]" + rest)[..4] == "[^/]";
  }

  // ---- The meaning is preserved ----

  ghost predicate Plain(p: string, key: string) { '\n' !in key || !HasDoubleStar(p) }

  lemma NoDoubleStarTail(p: string, k: nat)
    requires !HasDoubleStar(p) && k <= |p|
    ensures !HasDoubleStar(p[k..])
  {
    var q := p[k..];
    forall i | 0 <= i < |q| - 1 ensures !(q[i] == '*' && q[i + 1] == '*') {
      assert !(p[k + i] == '*' && p[k + i + 1] == '*');
    }
  }

  lemma PlainTail(p: string, key: string, k: nat, n: nat)
    requires Plain(p, key) && k <= |p| && n <= |key|
    ensures Plain(p[k..], key[n..])
  {
    if '\n' in key[n..] {
      assert '\n' in key;
      NoDoubleStarTail(p, k);
    }
  }

  lemma NotSlashText(s: string)
    ensures AllMatch(NotSlash, s) <==> '/' !in s
  {
  }

  lemma {:induction false} PiecesMeanGlob(p: string, key: string)
    requires Plain(p, key)
    ensures Matches(Pieces(p), key) <==> GlobMatches(p, key)
    decreases |p|
  {
    hide Matches, Plain;
    if p == "" {
      MatchesNothing(key);
    } else if p[0] == '*' {
      var wide := |p| >= 2 && p[1] == '*';
      var k := if wide then 2 else 1;
      var a := if wide then Dot else NotSlash;
      if wide {
        WideIsPlain(p, key);
      }
      StarTakesStretch(a, Pieces(p[k..]), key);
      forall n | 0 <= n <= |key|
        ensures Matches(Pieces(p[k..]), key[n..]) <==> GlobMatches(p[k..], key[n..])
        ensures AllMatch(a, key[..n]) <==> wide || '/' !in key[..n]
      {
        PlainTail(p, key, k, n);
        PiecesMeanGlob(p[k..], key[n..]);
        NotSlashText(key[..n]);
        assert wide ==> forall i :: 0 <= i < n ==> key[..n][i] in key;
      }
    } else {
      MatchesOne(Pieces(p)[0].atom, Pieces(p[1..]), key);
      if key != "" {
        PlainTail(p, key, 1, 1);
        PiecesMeanGlob(p[1..], key[1..]);
      }
    }
  }

  lemma WideIsPlain(p: string, key: string)
    requires Plain(p, key) && |p| >= 2 && p[0] == '*' && p[1] == '*'
    ensures '\n' !in key
  {
  }

  lemma MatchesNothing(key: string)
    ensures Matches([], key) <==> key == ""
  {
  }

  lemma MatchesOne(a: Atom, ps: seq<Piece>, key: string)
    ensures Matches([One(a)] + ps, key) <==> key != "" && AtomMatches(a, key[0]) && Matches(ps, key[1..])
  {
    assert ([One(a)] + ps)[1..] == ps;
  }

  /** For every pattern and every key, the anchored expression accepts the key
      exactly when the pattern matches it; a key with a newline is covered when there is no `**`. */
  lemma TranslationPreservesMeaning(p: string, key: string)
    requires Plain(p, key)
    ensures var re := ReadRegex("^" + Translate(p) + "$"); re.Some? && (Matches(re.value, key) <==> GlobMatches(p, key))
  {
    hide Matches, GlobMatches, Plain, ReadPieces;
    var t := "^" + Translate(p) + "$";
    assert t[1..|t| - 1] == Translate(p);
    TranslationReadsBack(p);
    PiecesMeanGlob(p, key);
  }

  /** The newline matters: a key is treated as documented by every pattern
      exactly when it holds none. */
  lemma NewlineIsTheException(key: string)
    ensures '\n' !in key <==>
      forall p :: Matches(Pieces(p), key) <==> GlobMatches(p, key)
  {
    hide Matches;
    forall p | '\n' !in key ensures Matches(Pieces(p), key) <==> GlobMatches(p, key) {
      PiecesMeanGlob(p, key);
    }
    if '\n' in key {
      StarTakesStretch(Dot, [], key);
      assert Pieces("**") == [Star(Dot)] + [];
      assert GlobMatches("**", key) by {
        assert key[|key|..] == "" && GlobMatches("", key[|key|..]);
      }
      assert !AllMatch(Dot, key) by {
        var i :| 0 <= i < |key| && key[i] == '\n';
        assert !AtomMatches(Dot, key[i]);
      }
      forall n | 0 <= n <= |key| ensures !(AllMatch(Dot, key[..n]) && Matches([], key[n..])) {
        MatchesNothing(key[n..]);
        assert n == |key| ==> key[..n] == key;
      }
    }
  }

  /** How often a newline is followed by a slash. */
  function Breaks(s: string): nat {
    if |s| < 2 then 0 else (if s[0] == '\n' && s[1] == '/' then 1 else 0) + Breaks(s[1..])
  }

  lemma {:induction false} BreaksConcat(a: string, b: string)
    ensures Breaks(a) + Breaks(b) <= Breaks(a + b) <= Breaks(a) + 1 + Breaks(b)
    decreases |a|
  {
    if a == "" {
      assert a + b == b;
    } else {
      assert (a + b)[1..] == a[1..] + b;
      BreaksConcat(a[1..], b);
    }
  }

  lemma {:induction false} StretchHasNoBreak(a: Atom, s: string)
    requires AllMatch(a, s) && !a.Lit?
    ensures Breaks(s) == 0
  {
    if |s| >= 2 {
      assert AtomMatches(a, s[0]) && AtomMatches(a, s[1]);
      StretchHasNoBreak(a, s[1..]);
    }
  }

  ghost predicate NoLiteralStars(ps: seq<Piece>) { forall i :: 0 <= i < |ps| && ps[i].Star? ==> !ps[i].atom.Lit? }

  lemma {:induction false} PiecesHaveNoLiteralStars(p: string)
    ensures NoLiteralStars(Pieces(p))
    decreases |p|
  {
    if p != "" {
      PiecesHaveNoLiteralStars(p[1..]);
      if |p| >= 2 {
        PiecesHaveNoLiteralStars(p[2..]);
      }
    }
  }

  /** Each break of an accepted key lies between the texts of two pieces. */
  lemma {:induction false} BreaksWithinPieces(ps: seq<Piece>, key: string)
    requires Matches(ps, key) && NoLiteralStars(ps)
    ensures Breaks(key) <= |ps|
    decreases |ps|
  {
    hide Matches;
    if ps == [] {
      MatchesNothing(key);
    } else {
      var rest := ps[1..];
      assert ps == [ps[0]] + rest;
      assert forall i :: 0 <= i < |rest| ==> rest[i] == ps[i + 1];
      if ps[0].One? {
        MatchesOne(ps[0].atom, rest, key);
        BreaksWithinPieces(rest, key[1..]);
      } else {
        StarTakesStretch(ps[0].atom, rest, key);
        var n :| 0 <= n <= |key| && AllMatch(ps[0].atom, key[..n]) && Matches(rest, key[n..]);
        BreaksWithinPieces(rest, key[n..]);
        StretchHasNoBreak(ps[0].atom, key[..n]);
        BreaksConcat(key[..n], key[n..]);
        assert key == key[..n] + key[n..];
      }
    }
  }

  /** A key that the pattern matches, with `filler` for every `**`. */
  function Sample(p: string, filler: string): string
    decreases |p|
  {
    if p == "" then ""
    else if p[0] == '*' && |p| >= 2 && p[1] == '*' then filler + Sample(p[2..], filler)
    else if p[0] == '*' then Sample(p[1..], filler)
    else [if p[0] == '?' then 'a' else p[0]] + Sample(p[1..], filler)
  }

  lemma {:induction false} SampleMatches(p: string, filler: string)
    ensures GlobMatches(p, Sample(p, filler))
    decreases |p|
  {
    var key := Sample(p, filler);
    if p == "" {
    } else if p[0] == '*' && |p| >= 2 && p[1] == '*' {
      SampleMatches(p[2..], filler);
      assert key[|filler|..] == Sample(p[2..], filler);
    } else if p[0] == '*' {
      SampleMatches(p[1..], filler);
      assert key[0..] == key && key[..0] == "";
    } else {
      SampleMatches(p[1..], filler);
      assert key[1..] == Sample(p[1..], filler);
    }
  }

  lemma {:induction false} SampleHasBreaks(p: string, filler: string)
    requires HasDoubleStar(p)
    ensures Breaks(filler) <= Breaks(Sample(p, filler))
    decreases |p|
  {
    hide Breaks;
    if p[0] == '*' && |p| >= 2 && p[1] == '*' {
      BreaksConcat(filler, Sample(p[2..], filler));
    } else {
      var i :| 0 <= i < |p| - 1 && p[i] == '*' && p[i + 1] == '*';
      assert p[1..][i - 1] == '*' && p[1..][i] == '*';
      SampleHasBreaks(p[1..], filler);
      if p[0] != '*' {
        BreaksConcat([if p[0] == '?' then 'a' else p[0]], Sample(p[1..], filler));
      }
    }
  }

  function Lines(n: nat): string { if n == 0 then "" else "\n/" + Lines(n - 1) }

  lemma {:induction false} LinesHaveBreaks(n: nat)
    ensures Breaks(Lines(n)) >= n
  {
    if n > 0 {
      LinesHaveBreaks(n - 1);
      BreaksConcat("\n/", Lines(n - 1));
      assert Breaks("\n/") == 1;
    }
  }

  /** `**` is the only exception: a pattern treats every key as documented exactly when it has
      none. An accepted key has no more breaks than the pattern has pieces, while `**` stands for
      text with any number of them. */
  lemma DoubleStarIsTheException(p: string)
    ensures !HasDoubleStar(p) <==> forall key :: Matches(Pieces(p), key) <==> GlobMatches(p, key)
  {
    hide Matches, GlobMatches, Breaks, HasDoubleStar, Sample;
    forall key | !HasDoubleStar(p) ensures Matches(Pieces(p), key) <==> GlobMatches(p, key) {
      PiecesMeanGlob(p, key);
    }
    if HasDoubleStar(p) {
      var n := |Pieces(p)| + 1;
      var key := Sample(p, Lines(n));
      SampleMatches(p, Lines(n));
      SampleHasBreaks(p, Lines(n));
      LinesHaveBreaks(n);
      if Matches(Pieces(p), key) {
        PiecesHaveNoLiteralStars(p);
        BreaksWithinPieces(Pieces(p), key);
      }
      assert !Matches(Pieces(p), key) && GlobMatches(p, key);
    }
  }

  // ---- Wildcards stay within a path segment ----

  function Slashes(s: string): nat {
    if s == "" then 0 else (if s[0] == '/' then 1 else 0) + Slashes(s[1..])
  }

  lemma {:induction false} SlashesAfter(s: string, n: nat)
    requires n <= |s| && '/' !in s[..n]
    ensures Slashes(s[n..]) == Slashes(s)
    decreases n
  {
    if n > 0 {
      assert s[0] == s[..n][0] && s[1..][..n - 1] == s[..n][1..] && s[1..][n - 1..] == s[n..];
      assert '/' !in s[1..][..n - 1];
      SlashesAfter(s[1..], n - 1);
    } else {
      assert s[0..] == s;
    }
  }

  lemma {:induction false} GlobKeepsSlashes(p: string, key: string)
    requires !HasDoubleStar(p) && GlobMatches(p, key)
    ensures Slashes(key) == Slashes(p)
    decreases |p|
  {
    if p != "" {
      NoDoubleStarTail(p, 1);
      if p[0] == '*' {
        var n :| 0 <= n <= |key| && '/' !in key[..n] && GlobMatches(p[1..], key[n..]);
        GlobKeepsSlashes(p[1..], key[n..]);
        SlashesAfter(key, n);
      } else {
        GlobKeepsSlashes(p[1..], key[1..]);
      }
    }
  }

  /** Without `**`, every key the expression accepts has as many slashes as the pattern. */
  lemma SegmentsAreKept(p: string, key: string)
    requires !HasDoubleStar(p)
    requires var re := ReadRegex("^" + Translate(p) + "$"); re.Some? && Matches(re.value, key)
    ensures Slashes(key) == Slashes(p)
  {
    hide Matches, GlobMatches, HasDoubleStar, ReadRegex, Slashes;
    TranslationPreservesMeaning(p, key);
    GlobKeepsSlashes(p, key);
  }
}
