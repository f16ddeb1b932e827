/** Bytes and the fragments of text handling that the codecs rely on.

    Rust `&str` values are kept as the bytes of their UTF-8 encoding. */
module Bytes {
  import opened Basics

  type Byte = b: int | 0 <= b < 256

  const CR: Byte := 13
  const LF: Byte := 10
  const CRLF: seq<Byte> := [13, 10]
  const COLON: Byte := 58
  const SEMICOLON: Byte := 59
  const PLUS: Byte := 43

  const USIZE_MAX: nat := 0xFFFF_FFFF_FFFF_FFFF

  // ---- Joining ----

  function Flatten(parts: seq<seq<Byte>>): seq<Byte> {
    if parts == [] then [] else parts[0] + Flatten(parts[1..])
  }

  function Prepend(s: seq<Byte>, r: Option<seq<Byte>>): Option<seq<Byte>> {
    if r.Some? then Some(s + r.value) else None
  }

  lemma PrependTwice(a: seq<Byte>, b: seq<Byte>, r: Option<seq<Byte>>)
    ensures Prepend(a, Prepend(b, r)) == Prepend(a + b, r)
  {
    assert r.Some? ==> a + (b + r.value) == (a + b) + r.value;
  }

  // ---- Line ends ----

  predicate CrlfAt(s: seq<Byte>, i: int) {
    0 <= i && i + 1 < |s| && s[i] == CR && s[i + 1] == LF
  }

  ghost predicate NoCrlf(s: seq<Byte>) {
    forall i :: !CrlfAt(s, i)
  }

  /** The first CRLF at or after `start`. */
  function FindCrlf(data: seq<Byte>, start: nat): (r: Option<nat>)
    ensures r.Some? ==> start <= r.value && CrlfAt(data, r.value)
    ensures r.Some? ==> forall j :: start <= j < r.value ==> !CrlfAt(data, j)
    ensures r.None? ==> forall j :: start <= j ==> !CrlfAt(data, j)
    decreases |data| - start
  {
    if start + 1 >= |data| then None
    else if CrlfAt(data, start) then Some(start)
    else FindCrlf(data, start + 1)
  }

  function IndexOf(s: seq<Byte>, b: Byte): (r: Option<nat>)
    ensures r.Some? ==> r.value < |s| && s[r.value] == b && b !in s[..r.value]
    ensures r.None? ==> b !in s
  {
    if s == [] then None
    else if s[0] == b then Some(0)
    else
      var r := IndexOf(s[1..], b);
      if r.None? then None
      else
        assert s[..r.value + 1] == [s[0]] + s[1..][..r.value];
        Some(r.value + 1)
  }

  lemma IndexOfFirst(a: seq<Byte>, b: Byte, rest: seq<Byte>)
    requires b !in a
    ensures IndexOf(a + [b] + rest, b) == Some(|a|)
  {
    var s := a + [b] + rest;
    assert s[|a|] == b;
    assert s[..|a|] == a;
  }

  // ---- UTF-8 well-formedness (table 3-7 of the Unicode Standard) ----

  predicate Continuation(b: Byte) { 0x80 <= b <= 0xBF }

  predicate SecondOfThree(lead: Byte, b: Byte) {
    || (lead == 0xE0 && 0xA0 <= b <= 0xBF)
    || (0xE1 <= lead <= 0xEF && lead != 0xED && Continuation(b))
    || (lead == 0xED && 0x80 <= b <= 0x9F)
  }

  predicate SecondOfFour(lead: Byte, b: Byte) {
    || (lead == 0xF0 && 0x90 <= b <= 0xBF)
    || (0xF1 <= lead <= 0xF3 && Continuation(b))
    || (lead == 0xF4 && 0x80 <= b <= 0x8F)
  }

  /** The width of the scalar value at the front of `s`, or 0 when it is malformed. */
  function ScalarWidth(s: seq<Byte>): (n: nat)
    requires s != []
    ensures n <= |s|
  {
    if s[0] < 0x80 then 1
    else if 0xC2 <= s[0] <= 0xDF && |s| >= 2 && Continuation(s[1]) then 2
    else if |s| >= 3 && SecondOfThree(s[0], s[1]) && Continuation(s[2]) then 3
    else if |s| >= 4 && SecondOfFour(s[0], s[1]) && Continuation(s[2]) && Continuation(s[3]) then 4
    else 0
  }

  predicate ValidUtf8(s: seq<Byte>)
    decreases |s|
  {
    s == [] || (ScalarWidth(s) > 0 && ValidUtf8(s[ScalarWidth(s)..]))
  }

  lemma {:induction false} ValidUtf8Concat(a: seq<Byte>, b: seq<Byte>)
    requires ValidUtf8(a) && ValidUtf8(b)
    ensures ValidUtf8(a + b)
    decreases |a|
  {
    if a == [] {
      assert a + b == b;
    } else {
      var n := ScalarWidth(a);
      assert ScalarWidth(a + b) == n;
      assert (a + b)[n..] == a[n..] + b;
      ValidUtf8Concat(a[n..], b);
    }
  }

  lemma {:induction false} AsciiIsUtf8(s: seq<Byte>)
    requires forall i :: 0 <= i < |s| ==> s[i] < 0x80
    ensures ValidUtf8(s)
  {
    if s != [] {
      AsciiIsUtf8(s[1..]);
    }
  }

  // ---- `str::trim`: strips characters with the White_Space property ----

  predicate IsWideSpace(a: Byte, b: Byte, c: Byte) {
    || (a == 0xE1 && b == 0x9A && c == 0x80)
    || (a == 0xE2 && b == 0x80 && (0x80 <= c <= 0x8A || c == 0xA8 || c == 0xA9 || c == 0xAF))
    || (a == 0xE2 && b == 0x81 && c == 0x9F)
    || (a == 0xE3 && b == 0x80 && c == 0x80)
  }

  predicate IsSpace(b: Byte) { 9 <= b <= 13 || b == 32 }

  function SpaceAtStart(s: seq<Byte>): (n: nat)
    ensures n <= |s|
  {
    if |s| >= 1 && IsSpace(s[0]) then 1
    else if |s| >= 2 && s[0] == 0xC2 && (s[1] == 0x85 || s[1] == 0xA0) then 2
    else if |s| >= 3 && IsWideSpace(s[0], s[1], s[2]) then 3
    else 0
  }

  function SpaceAtEnd(s: seq<Byte>): (n: nat)
    ensures n <= |s|
  {
    var k := |s|;
    if k >= 1 && IsSpace(s[k - 1]) then 1
    else if k >= 2 && s[k - 2] == 0xC2 && (s[k - 1] == 0x85 || s[k - 1] == 0xA0) then 2
    else if k >= 3 && IsWideSpace(s[k - 3], s[k - 2], s[k - 1]) then 3
    else 0
  }

  function TrimStart(s: seq<Byte>): seq<Byte>
    decreases |s|
  {
    if SpaceAtStart(s) == 0 then s else TrimStart(s[SpaceAtStart(s)..])
  }

  function TrimEnd(s: seq<Byte>): seq<Byte>
    decreases |s|
  {
    if SpaceAtEnd(s) == 0 then s else TrimEnd(s[..|s| - SpaceAtEnd(s)])
  }

  function Trim(s: seq<Byte>): seq<Byte> { TrimEnd(TrimStart(s)) }

  // ---- Hexadecimal numbers ----

  predicate IsHex(b: Byte) { 48 <= b <= 57 || 65 <= b <= 70 || 97 <= b <= 102 }

  predicate AllHex(s: seq<Byte>) { forall i :: 0 <= i < |s| ==> IsHex(s[i]) }

  function DigitValue(b: Byte): nat
    requires IsHex(b)
  {
    if b <= 57 then b - 48 else if b <= 70 then b - 55 else b - 87
  }

  function HexValue(s: seq<Byte>): nat
    requires AllHex(s)
  {
    if s == [] then 0 else 16 * HexValue(s[..|s| - 1]) + DigitValue(s[|s| - 1])
  }

  function HexDigit(n: nat): (b: Byte)
    requires n < 16
    ensures IsHex(b) && DigitValue(b) == n
  {
    if n < 10 then 48 + n else 87 + n
  }

  /** `format!("{:x}", n)`. */
  function ToHex(n: nat): (s: seq<Byte>)
    ensures s != [] && AllHex(s)
    ensures HexValue(s) == n
  {
    if n < 16 then [HexDigit(n)]
    else
      var s := ToHex(n / 16) + [HexDigit(n % 16)];
      assert s[..|s| - 1] == ToHex(n / 16);
      s
  }

  lemma {:induction false} ToHexLength(n: nat, digits: nat, bound: nat)
    requires 0 < digits && n < bound && bound == Pow16(digits)
    ensures |ToHex(n)| <= digits
  {
    if n >= 16 {
      ToHexLength(n / 16, digits - 1, Pow16(digits - 1));
    }
  }

  function Pow16(k: nat): nat { if k == 0 then 1 else 16 * Pow16(k - 1) }

  /** `usize::from_str_radix(s, 16)`: an optional `+`, at least one digit, no overflow. */
  function ParseHex(s: seq<Byte>): Option<nat> {
    var digits := if |s| >= 2 && s[0] == PLUS then s[1..] else s;
    if digits != [] && AllHex(digits) && HexValue(digits) <= USIZE_MAX then Some(HexValue(digits)) else None
  }

  /** Hexadecimal text holds no white space, so trimming leaves it alone. */
  lemma HexIsTrimmed(s: seq<Byte>)
    requires s != [] && AllHex(s)
    ensures Trim(s) == s
  {
    assert IsHex(s[0]) && IsHex(s[|s| - 1]);
  }
}
