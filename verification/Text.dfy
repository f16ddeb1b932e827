/** Characters and the UTF-8 bytes that stand for them. */
module Text {
  import opened Bytes

  // ---- UTF-8 ----

  function Utf8Char(c: char): seq<Byte> {
    var u := c as int;
    if u < 0x80 then [u]
    else if u < 0x800 then [0xC0 + u / 64, 0x80 + u % 64]
    else if u < 0x10000 then [0xE0 + u / 4096, 0x80 + u / 64 % 64, 0x80 + u % 64]
    else [0xF0 + u / 262144, 0x80 + u / 4096 % 64, 0x80 + u / 64 % 64, 0x80 + u % 64]
  }

  function Utf8(p: string): seq<Byte> {
    if p == "" then [] else Utf8Char(p[0]) + Utf8(p[1..])
  }

  lemma {:induction false} Utf8Concat(a: string, b: string)
    ensures Utf8(a + b) == Utf8(a) + Utf8(b)
  {
    if a == "" {
      assert a + b == b;
    } else {
      assert (a + b)[1..] == a[1..] + b;
      Utf8Concat(a[1..], b);
    }
  }

  lemma ThirdRow(u: int)
    requires 0x800 <= u < 0xD800 || 0xE000 <= u < 0x10000
    ensures SecondOfThree(0xE0 + u / 4096, 0x80 + u / 64 % 64)
  {
  }

  lemma FourthRow(u: int)
    requires 0x10000 <= u < 0x110000
    ensures SecondOfFour(0xF0 + u / 262144, 0x80 + u / 4096 % 64)
  {
  }

  lemma CharWidth(c: char, rest: seq<Byte>)
    ensures ScalarWidth(Utf8Char(c) + rest) == |Utf8Char(c)|
    ensures |Utf8Char(c)| >= 3 <==> c as int >= 0x800
  {
    hide SecondOfThree, SecondOfFour;
    var u, b, s := c as int, Utf8Char(c), Utf8Char(c) + rest;
    assert forall i :: 0 <= i < |b| ==> s[i] == b[i];
    if 0x800 <= u < 0x10000 {
      ThirdRow(u);
    } else if 0x10000 <= u {
      FourthRow(u);
      NotThreeBytes(s[0], s[1]);
    }
  }

  lemma NotThreeBytes(lead: Byte, b: Byte)
    requires lead >= 0xF0
    ensures !SecondOfThree(lead, b)
  {
  }

  /** Whether some scalar value takes three or four bytes. */
  predicate HasWide(s: seq<Byte>)
    requires ValidUtf8(s)
    decreases |s|
  {
    s != [] && (ScalarWidth(s) >= 3 || HasWide(s[ScalarWidth(s)..]))
  }

  lemma {:induction false} WideCharacters(p: string)
    ensures ValidUtf8(Utf8(p))
    ensures HasWide(Utf8(p)) <==> exists i :: 0 <= i < |p| && p[i] as int >= 0x800
  {
    hide Utf8Char, ScalarWidth;
    if p != "" {
      var rest := Utf8(p[1..]);
      WideCharacters(p[1..]);
      CharWidth(p[0], rest);
      assert (Utf8Char(p[0]) + rest)[|Utf8Char(p[0])|..] == rest;
      CharIsNotEmpty(p[0]);
      assert forall i :: 0 < i < |p| ==> p[i] == p[1..][i - 1];
      if i :| 0 <= i < |p[1..]| && p[1..][i] as int >= 0x800 {
        assert p[i + 1] as int >= 0x800;
      }
    }
  }

  lemma CharIsNotEmpty(c: char)
    ensures Utf8Char(c) != []
  {
  }

  lemma {:induction false} Utf8IsValid(p: string)
    ensures ValidUtf8(Utf8(p))
  {
    WideCharacters(p);
  }

  /** The number written with digits to the base 64. */
  function Code(a: int, b: int, c: int, d: int): int { ((a * 64 + b) * 64 + c) * 64 + d }

  lemma CodeDigits(a: nat, b: nat, c: nat, d: nat)
    requires b < 64 && c < 64 && d < 64
    ensures var u := Code(a, b, c, d);
      u / 262144 == a && u / 4096 % 64 == b && u / 64 % 64 == c && u % 64 == d && u / 4096 == a * 64 + b
  {
    var u := Code(a, b, c, d);
    assert u / 64 == (a * 64 + b) * 64 + c;
    assert u / 4096 == a * 64 + b;
  }

  /** The character whose encoding is at the front of `s`. */
  function FrontChar(s: seq<Byte>): char
    requires s != [] && ScalarWidth(s) > 0
  {
    var n := ScalarWidth(s);
    FrontIsScalar(s);
    FrontCode(s) as char
  }

  function FrontCode(s: seq<Byte>): int
    requires s != [] && ScalarWidth(s) > 0
  {
    var n := ScalarWidth(s);
    if n == 1 then s[0]
    else if n == 2 then Code(0, 0, s[0] - 0xC0, s[1] - 0x80)
    else if n == 3 then Code(0, s[0] - 0xE0, s[1] - 0x80, s[2] - 0x80)
    else Code(s[0] - 0xF0, s[1] - 0x80, s[2] - 0x80, s[3] - 0x80)
  }

  lemma FrontIsScalar(s: seq<Byte>)
    requires s != [] && ScalarWidth(s) > 0
    ensures var u, n := FrontCode(s), ScalarWidth(s);
      && (0 <= u < 0xD800 || 0xE000 <= u < 0x110000)
      && (n == 1 <==> u < 0x80) && (n <= 2 <==> u < 0x800) && (n <= 3 <==> u < 0x10000)
  {
  }

  lemma TwoBytesEncoded(s: seq<Byte>)
    requires s != [] && ScalarWidth(s) == 2
    ensures Utf8Char(FrontChar(s)) == s[..2]
  {
    hide Code;
    FrontIsScalar(s);
    CodeDigits(0, 0, s[0] - 0xC0, s[1] - 0x80);
    SmallCode(0, s[0] - 0xC0, s[1] - 0x80);
  }

  lemma ThreeBytesEncoded(s: seq<Byte>)
    requires s != [] && ScalarWidth(s) == 3
    ensures Utf8Char(FrontChar(s)) == s[..3]
  {
    hide Code, SecondOfThree, SecondOfFour;
    FrontIsScalar(s);
    LeadOfThree(s);
    CodeDigits(0, s[0] - 0xE0, s[1] - 0x80, s[2] - 0x80);
  }

  lemma LeadOfThree(s: seq<Byte>)
    requires s != [] && ScalarWidth(s) == 3
    ensures |s| >= 3 && 0xE0 <= s[0] <= 0xEF && Continuation(s[1]) && Continuation(s[2])
  {
  }

  lemma FourBytesEncoded(s: seq<Byte>)
    requires s != [] && ScalarWidth(s) == 4
    ensures Utf8Char(FrontChar(s)) == s[..4]
  {
    hide Code, SecondOfThree, SecondOfFour;
    FrontIsScalar(s);
    LeadOfFour(s);
    CodeDigits(s[0] - 0xF0, s[1] - 0x80, s[2] - 0x80, s[3] - 0x80);
  }

  lemma LeadOfFour(s: seq<Byte>)
    requires s != [] && ScalarWidth(s) == 4
    ensures |s| >= 4 && 0xF0 <= s[0] <= 0xF4 && Continuation(s[1]) && Continuation(s[2]) && Continuation(s[3])
  {
  }

  lemma FrontCharIsEncoded(s: seq<Byte>)
    requires s != [] && ScalarWidth(s) > 0
    ensures Utf8Char(FrontChar(s)) == s[..ScalarWidth(s)]
  {
    var n := ScalarWidth(s);
    if n == 1 {
      assert Utf8Char(FrontChar(s)) == [s[0]];
    } else {
      assert Utf8Char(FrontChar(s)) == s[..n] by {
        hide FrontChar, Utf8Char;
        if n == 2 {
          TwoBytesEncoded(s);
        } else if n == 3 {
          ThreeBytesEncoded(s);
        } else {
          FourBytesEncoded(s);
        }
      }
    }
  }

  lemma SmallCode(b: nat, c: nat, d: nat)
    requires b == 0 && c < 64 && d < 64
    ensures Code(0, b, c, d) / 64 == c
  {
  }

  /** The well-formed byte sequences are exactly the encodings of texts. */
  lemma {:induction false} ValidIsEncoded(s: seq<Byte>) returns (p: string)
    requires ValidUtf8(s)
    ensures Utf8(p) == s
    decreases |s|
  {
    hide ScalarWidth, FrontChar, Utf8Char;
    if s == [] {
      p := "";
    } else {
      var n := ScalarWidth(s);
      var rest := ValidIsEncoded(s[n..]);
      FrontCharIsEncoded(s);
      p := [FrontChar(s)] + rest;
      assert p[1..] == rest && s == s[..n] + s[n..];
    }
  }

  // ---- White space ----

  /** The White_Space property, as `str::trim` uses it. */
  predicate IsWhiteSpace(c: char) {
    var u := c as int;
    || 9 <= u <= 13 || u == 0x20 || u == 0x85 || u == 0xA0 || u == 0x1680 || 0x2000 <= u <= 0x200A
    || u == 0x2028 || u == 0x2029 || u == 0x202F || u == 0x205F || u == 0x3000
  }

  predicate IsBlank(p: string) { forall i :: 0 <= i < |p| ==> IsWhiteSpace(p[i]) }

  /** A text without the white space at its ends. */
  ghost predicate IsTrimmed(p: string, t: string) {
    exists i, j :: TrimmedAt(p, t, i, j)
  }

  ghost predicate TrimmedAt(p: string, t: string, i: int, j: int) {
    && 0 <= i <= j <= |p| && t == p[i..j]
    && IsBlank(p[..i]) && IsBlank(p[j..])
    && (t != "" ==> !IsWhiteSpace(t[0]) && !IsWhiteSpace(t[|t| - 1]))
  }

  lemma SpaceRow(u: int)
    requires 0x800 <= u < 0x10000
    ensures IsWideSpace(0xE0 + u / 4096, 0x80 + u / 64 % 64, 0x80 + u % 64) <==>
      u == 0x1680 || 0x2000 <= u <= 0x200A || u == 0x2028 || u == 0x2029 || u == 0x202F || u == 0x205F || u == 0x3000
  {
    var a, b, c := u / 4096, u / 64 % 64, u % 64;
    assert u == a * 4096 + b * 64 + c && 0 <= b < 64 && 0 <= c < 64;
  }

  lemma SpaceInFront(c: char, rest: seq<Byte>)
    ensures SpaceAtStart(Utf8Char(c) + rest) == if IsWhiteSpace(c) then |Utf8Char(c)| else 0
  {
    hide IsWideSpace;
    var u, b, s := c as int, Utf8Char(c), Utf8Char(c) + rest;
    assert forall i :: 0 <= i < |b| ==> s[i] == b[i];
    if 0x800 <= u < 0x10000 {
      SpaceRow(u);
    } else {
      NoWideSpace(s);
    }
  }

  lemma NoWideSpace(s: seq<Byte>)
    requires |s| >= 1 && (s[0] < 0xE0 || s[0] >= 0xF0)
    ensures |s| >= 3 ==> !IsWideSpace(s[0], s[1], s[2])
  {
  }

  lemma SpaceBehind(before: seq<Byte>, c: char)
    ensures SpaceAtEnd(before + Utf8Char(c)) == if IsWhiteSpace(c) then |Utf8Char(c)| else 0
  {
    hide IsWideSpace;
    var u, b, s := c as int, Utf8Char(c), before + Utf8Char(c);
    var k := |s|;
    assert forall i :: 0 <= i < |b| ==> s[k - |b| + i] == b[i];
    if 0x800 <= u < 0x10000 {
      SpaceRow(u);
    } else if k >= 3 {
      NoWideSpaceBehind(s[k - 3], s[k - 2], s[k - 1]);
    }
  }

  lemma NoWideSpaceBehind(a: Byte, b: Byte, c: Byte)
    requires !Continuation(b) || !Continuation(c) || a < 0xE0 || a >= 0xF0
    ensures !IsWideSpace(a, b, c)
  {
  }

  lemma {:induction false} TrimStartText(p: string) returns (i: nat)
    ensures i <= |p| && TrimStart(Utf8(p)) == Utf8(p[i..]) && IsBlank(p[..i])
    ensures i < |p| ==> !IsWhiteSpace(p[i])
    decreases |p|
  {
    hide SpaceAtStart, Utf8Char, IsWhiteSpace;
    if p == "" {
      NoSpaceInNothing();
      i := 0;
    } else {
      var rest := Utf8(p[1..]);
      SpaceInFront(p[0], rest);
      CharIsNotEmpty(p[0]);
      if IsWhiteSpace(p[0]) {
        assert (Utf8Char(p[0]) + rest)[|Utf8Char(p[0])|..] == rest;
        var j := TrimStartText(p[1..]);
        i := j + 1;
        assert p[1..][j..] == p[i..] && p[..i] == [p[0]] + p[1..][..j];
      } else {
        i := 0;
        assert p[0..] == p;
      }
    }
  }

  lemma NoSpaceInNothing()
    ensures SpaceAtStart([]) == 0 && SpaceAtEnd([]) == 0
  {
  }

  lemma {:induction false} TrimEndText(p: string) returns (j: nat)
    ensures j <= |p| && TrimEnd(Utf8(p)) == Utf8(p[..j]) && IsBlank(p[j..])
    ensures j > 0 ==> !IsWhiteSpace(p[j - 1])
    decreases |p|
  {
    hide SpaceAtEnd, Utf8Char, IsWhiteSpace;
    if p == "" {
      NoSpaceInNothing();
      j := 0;
    } else {
      var n := |p| - 1;
      var init, last := Utf8(p[..n]), Utf8Char(p[n]);
      assert Utf8(p) == init + last by {
        Utf8Concat(p[..n], [p[n]]);
        Utf8One(p[n]);
        assert p == p[..n] + [p[n]];
      }
      SpaceBehind(init, p[n]);
      CharIsNotEmpty(p[n]);
      if IsWhiteSpace(p[n]) {
        assert (init + last)[..|init|] == init;
        j := TrimEndText(p[..n]);
        assert p[..n][..j] == p[..j] && p[j..] == p[..n][j..] + [p[n]];
      } else {
        j := |p|;
        assert p[..j] == p;
      }
    }
  }

  lemma Utf8One(c: char)
    ensures Utf8([c]) == Utf8Char(c)
  {
    assert [c][1..] == "" && Utf8Char(c) + [] == Utf8Char(c);
  }

  /** Trimming the bytes of a text takes off exactly the white space at both its ends. */
  lemma TrimIsTextual(p: string) returns (t: string)
    ensures IsTrimmed(p, t) && Trim(Utf8(p)) == Utf8(t)
  {
    hide TrimStart, TrimEnd, Utf8, IsWhiteSpace;
    var i := TrimStartText(p);
    var k := TrimEndText(p[i..]);
    t := p[i..][..k];
    assert t == p[i..i + k] && p[i..][k..] == p[i + k..];
    assert t != "" ==> t[0] == p[i] && t[|t| - 1] == p[i..][k - 1];
    assert TrimmedAt(p, t, i, i + k);
  }

  /** There is only one way to do so. */
  lemma TrimmedIsUnique(p: string, t: string, u: string)
    requires IsTrimmed(p, t) && IsTrimmed(p, u)
    ensures t == u
  {
    hide IsWhiteSpace;
    var i, j :| TrimmedAt(p, t, i, j);
    var k, l :| TrimmedAt(p, u, k, l);
    if t != "" {
      InsideTrimmed(p, t, i, j, u, k, l);
    }
    if u != "" {
      InsideTrimmed(p, u, k, l, t, i, j);
    }
  }

  /** What is not blank lies within every trimming. */
  lemma InsideTrimmed(p: string, t: string, i: int, j: int, u: string, k: int, l: int)
    requires TrimmedAt(p, t, i, j) && TrimmedAt(p, u, k, l) && t != ""
    ensures k <= i && j <= l
  {
    hide IsWhiteSpace;
    assert t[0] == p[i] && t[|t| - 1] == p[j - 1];
  }

  lemma TrimOf(p: string, t: string)
    requires IsTrimmed(p, t)
    ensures Trim(Utf8(p)) == Utf8(t)
  {
    hide Trim, Utf8, IsTrimmed;
    var u := TrimIsTextual(p);
    TrimmedIsUnique(p, t, u);
  }

  // ---- The encoding is injective ----

  lemma Utf8CharInjective(c: char, d: char)
    requires Utf8Char(c) == Utf8Char(d)
    ensures c == d
  {
    var u, v := c as int, d as int;
    assert |Utf8Char(c)| == |Utf8Char(d)|;
    FromDigits(u);
    FromDigits(v);
  }

  lemma FromDigits(u: nat)
    ensures u == Code(u / 262144, u / 4096 % 64, u / 64 % 64, u % 64)
    ensures u < 0x10000 ==> u == Code(0, u / 4096, u / 64 % 64, u % 64)
    ensures u < 0x800 ==> u == Code(0, 0, u / 64, u % 64)
  {
    var a, b, c, d := u / 262144, u / 4096 % 64, u / 64 % 64, u % 64;
    assert u == 64 * (u / 64) + d;
    assert u / 64 == 64 * (u / 4096) + c;
    assert u / 4096 == 64 * a + b;
  }

  lemma {:induction false} Utf8Injective(p: string, q: string)
    requires Utf8(p) == Utf8(q)
    ensures p == q
    decreases |p|
  {
    hide Utf8Char, ScalarWidth;
    if p == "" || q == "" {
      if p != "" {
        CharIsNotEmpty(p[0]);
      }
      if q != "" {
        CharIsNotEmpty(q[0]);
      }
    } else {
      var a, b := Utf8Char(p[0]), Utf8Char(q[0]);
      CharWidth(p[0], Utf8(p[1..]));
      CharWidth(q[0], Utf8(q[1..]));
      assert a == Utf8(p)[..|a|] && b == Utf8(q)[..|b|];
      Utf8CharInjective(p[0], q[0]);
      assert Utf8(p[1..]) == Utf8(p)[|a|..] && Utf8(q[1..]) == Utf8(q)[|b|..];
      Utf8Injective(p[1..], q[1..]);
      assert p == [p[0]] + p[1..] && q == [q[0]] + q[1..];
    }
  }

  // ---- ASCII characters ----

  lemma AsciiByte(c: char, d: char)
    requires c as int < 0x80
    ensures c as int in Utf8Char(d) <==> c == d
    ensures Utf8Char(d) != [] && (Utf8Char(d)[0] == c as int <==> c == d)
  {
    assert c == d ==> Utf8Char(d)[0] == c as int;
  }

  /** An ASCII byte occurs in the encoding exactly where its character occurs in the text. */
  lemma {:induction false} AsciiIn(p: string, c: char)
    requires c as int < 0x80
    ensures c as int in Utf8(p) <==> c in p
  {
    hide Utf8Char;
    if p != "" {
      AsciiByte(c, p[0]);
      AsciiIn(p[1..], c);
      assert p == [p[0]] + p[1..];
    }
  }

  lemma AsciiCut(a: string, c: char, rest: string)
    requires c as int < 0x80 && c !in a
    ensures var s := Utf8(a + [c] + rest);
      IndexOf(s, c as int).Some? && IndexOf(s, c as int).value == |Utf8(a)| &&
      s[..|Utf8(a)|] == Utf8(a) && s[|Utf8(a)| + 1..] == Utf8(rest)
  {
    hide Utf8, IndexOf;
    Utf8Concat(a + [c], rest);
    Utf8Concat(a, [c]);
    Utf8One(c);
    AsciiIn(a, c);
    assert Utf8Char(c) == [c as int];
    IndexOfFirst(Utf8(a), c as int, Utf8(rest));
  }
}
