/** JavaScript text as a sequence of 16-bit code units, and the character
    classes that the JSON code of login.js and its regular expressions use. */
module JsonText {

  type CodeUnit = u: int | 0 <= u <= 0xFFFF

  type Text = seq<CodeUnit>

  const NEWLINE: CodeUnit := 0x0A
  const RETURN: CodeUnit := 0x0D
  const SPACE: CodeUnit := 0x20
  const QUOTE: CodeUnit := 0x22
  const PLUS: CodeUnit := 0x2B
  const COMMA: CodeUnit := 0x2C
  const MINUS: CodeUnit := 0x2D
  const DOT: CodeUnit := 0x2E
  const SLASH: CodeUnit := 0x2F
  const ZERO: CodeUnit := 0x30
  const COLON: CodeUnit := 0x3A
  const AT: CodeUnit := 0x40
  const LBRACKET: CodeUnit := 0x5B
  const BACKSLASH: CodeUnit := 0x5C
  const RBRACKET: CodeUnit := 0x5D
  const LOWER_U: CodeUnit := 0x75
  const LBRACE: CodeUnit := 0x7B
  const RBRACE: CodeUnit := 0x7D

  // The words true, false and null.
  const TRUE: Text := [0x74, 0x72, 0x75, 0x65]
  const FALSE: Text := [0x66, 0x61, 0x6C, 0x73, 0x65]
  const NULL: Text := [0x6E, 0x75, 0x6C, 0x6C]

  predicate IsDigit(c: CodeUnit) { 0x30 <= c <= 0x39 }

  predicate IsHex(c: CodeUnit) {
    0x30 <= c <= 0x39 || 0x41 <= c <= 0x46 || 0x61 <= c <= 0x66
  }

  /** The regular expression class \s of ECMAScript. */
  predicate IsSpace(c: CodeUnit) {
    0x09 <= c <= 0x0D || c == 0x20 || c == 0xA0 || c == 0x1680 || 0x2000 <= c <= 0x200A
    || c == 0x2028 || c == 0x2029 || c == 0x202F || c == 0x205F || c == 0x3000 || c == 0xFEFF
  }

  /** White space between tokens in section 2 of RFC 4627. */
  predicate IsJsonSpace(c: CodeUnit) { c == 0x20 || c == 0x09 || c == 0x0A || c == 0x0D }

  /** The class cx: characters that JSON.parse rewrites as \uXXXX before anything else. */
  predicate IsCx(c: CodeUnit) {
    c == 0 || c == 0xAD || 0x600 <= c <= 0x604 || c == 0x70F || c == 0x17B4 || c == 0x17B5
    || 0x200C <= c <= 0x200F || 0x2028 <= c <= 0x202F || 0x2060 <= c <= 0x206F
    || c == 0xFEFF || 0xFFF0 <= c
  }

  /** The class escapable: characters that quote must rewrite. */
  predicate IsEscapable(c: CodeUnit) {
    c == BACKSLASH || c == QUOTE || c <= 0x1F || 0x7F <= c <= 0x9F || IsCx(c)
  }

  predicate IsMark(c: CodeUnit) {
    c == LBRACKET || c == RBRACKET || c == LBRACE || c == RBRACE || c == COLON || c == COMMA
  }

  predicate StartsWith(t: Text, prefix: Text) { prefix <= t }

  // --- hexadecimal, as Number.prototype.toString(16) writes it ------------

  function HexDigit(d: nat): (c: CodeUnit)
    requires d < 16
  {
    if d < 10 then 0x30 + d else 0x61 + (d - 10)
  }

  function HexValue(c: CodeUnit): (d: nat)
    requires IsHex(c)
    ensures d < 16
  {
    if c <= 0x39 then c - 0x30 else if c <= 0x46 then c - 0x41 + 10 else c - 0x61 + 10
  }

  function ToHex(n: nat): Text {
    if n < 16 then [HexDigit(n)] else ToHex(n / 16) + [HexDigit(n % 16)]
  }

  /** '\\u' + ('0000' + a.charCodeAt(0).toString(16)).slice(-4) */
  function UnicodeEscape(c: CodeUnit): Text {
    var padded := [ZERO, ZERO, ZERO, ZERO] + ToHex(c);
    [BACKSLASH, LOWER_U] + padded[|padded| - 4..]
  }

  /** The padded slice is always the four hexadecimal digits of the code unit. */
  lemma UnicodeEscapeDigits(c: CodeUnit)
    ensures UnicodeEscape(c) ==
            [BACKSLASH, LOWER_U, HexDigit(c / 4096), HexDigit(c / 256 % 16), HexDigit(c / 16 % 16), HexDigit(c % 16)]
  {
    var zeros: Text := [ZERO, ZERO, ZERO, ZERO];
    var d0, d1, d2, d3 := HexDigit(c % 16), HexDigit(c / 16 % 16), HexDigit(c / 256 % 16), HexDigit(c / 4096);
    if c < 16 {
      assert ToHex(c) == [d0];
    } else if c < 256 {
      assert ToHex(c / 16) == [HexDigit(c / 16)];
      assert ToHex(c) == [d1, d0];
    } else if c < 4096 {
      assert c / 16 / 16 == c / 256;
      assert ToHex(c / 256) == [HexDigit(c / 256)];
      assert ToHex(c / 16) == [d2, d1];
      assert ToHex(c) == [d2, d1, d0];
    } else {
      assert c / 16 / 16 == c / 256 && c / 256 / 16 == c / 4096;
      assert ToHex(c / 4096) == [HexDigit(c / 4096)];
      assert ToHex(c / 256) == [d3, d2];
      assert ToHex(c / 16) == [d3, d2, d1];
      assert ToHex(c) == [d3, d2, d1, d0];
    }
  }

  function FromHex4(a: CodeUnit, b: CodeUnit, c: CodeUnit, d: CodeUnit): (u: CodeUnit)
    requires IsHex(a) && IsHex(b) && IsHex(c) && IsHex(d)
  {
    HexValue(a) * 4096 + HexValue(b) * 256 + HexValue(c) * 16 + HexValue(d)
  }

  lemma HexDigitValue(d: nat)
    requires d < 16
    ensures IsHex(HexDigit(d)) && HexValue(HexDigit(d)) == d
  {}

  /** The digits that toString(16) writes, and those that the grammar allows besides. */
  lemma HexExact(c: CodeUnit)
    ensures forall d: nat :: d < 16 ==> HexDigit(d) == "0123456789abcdef"[d] as int
    ensures IsHex(c) <==> exists d: nat :: d < 16 && IsHexFor(c, d)
    ensures forall d: nat :: d < 16 && IsHexFor(c, d) ==> IsHex(c) && HexValue(c) == d
  {
    if IsHex(c) {
      assert IsHexFor(c, HexValue(c));
    }
  }

  predicate IsHexFor(c: CodeUnit, d: nat)
    requires d < 16
  {
    c == "0123456789abcdef"[d] as int || c == "0123456789ABCDEF"[d] as int
  }

  lemma HexRoundTrip(c: CodeUnit)
    ensures FromHex4(HexDigit(c / 4096), HexDigit(c / 256 % 16), HexDigit(c / 16 % 16), HexDigit(c % 16)) == c
  {
    var a, b, d := c / 16, c / 256, c / 4096;
    assert c == 16 * a + c % 16;
    assert b == a / 16 && a == 16 * b + a % 16;
    assert d == b / 16 && b == 16 * d + b % 16;
    HexDigitValue(d);
    HexDigitValue(b % 16);
    HexDigitValue(a % 16);
    HexDigitValue(c % 16);
  }

  // --- the number pattern --------------------------------------------------

  /** How many digits the text starts with. */
  function Digits(t: Text): (n: nat)
    ensures n <= |t|
  {
    if t != [] && IsDigit(t[0]) then 1 + Digits(t[1..]) else 0
  }

  /** The end of (?:[eE][+\-]?\d+)? when it is tried at position p. */
  function ExponentEnd(t: Text, p: nat): (n: nat)
    requires p <= |t|
    ensures p <= n <= |t|
  {
    if p < |t| && (t[p] == 0x65 || t[p] == 0x45) then
      var q := if p + 1 < |t| && (t[p + 1] == PLUS || t[p + 1] == MINUS) then p + 2 else p + 1;
      var k := Digits(t[q..]);
      if k > 0 then q + k else p
    else p
  }

  /** The end of (?:\.\d*)? when it is tried at position p. */
  function FractionEnd(t: Text, p: nat): (n: nat)
    requires p <= |t|
    ensures p <= n <= |t|
  {
    if p < |t| && t[p] == DOT then p + 1 + Digits(t[p + 1..]) else p
  }

  /** The length of the match of -?\d+(?:\.\d*)?(?:[eE][+\-]?\d+)? at the start of t,
      or 0 when it does not match. Every optional part is greedy. */
  function MatchNumber(t: Text): (n: nat)
    ensures n <= |t|
  {
    var s := if t != [] && t[0] == MINUS then 1 else 0;
    var d := Digits(t[s..]);
    if d == 0 then 0
    else ExponentEnd(t, FractionEnd(t, s + d))
  }

  /** number of section 2.4 of RFC 4627: no leading zero, at least one digit after the point. */
  predicate IsNumber(t: Text) {
    var s := if t != [] && t[0] == MINUS then 1 else 0;
    var d := Digits(t[s..]);
    && |t| > 0
    && MatchNumber(t) == |t|
    && (t[s..] != [] && t[s] == ZERO ==> d == 1)
    && (s + d < |t| && t[s + d] == DOT ==> Digits(t[s + d + 1..]) > 0)
  }

  /** A character that cannot continue a number. */
  predicate EndsNumber(c: CodeUnit) {
    !IsDigit(c) && c != DOT && c != 0x65 && c != 0x45
  }

  lemma {:induction false} DigitsAppend(t: Text, rest: Text)
    requires rest == [] || !IsDigit(rest[0])
    ensures Digits(t + rest) == Digits(t)
  {
    if t != [] && IsDigit(t[0]) {
      DigitsAppend(t[1..], rest);
      assert (t + rest)[1..] == t[1..] + rest;
    } else if t == [] {
      assert t + rest == rest;
    }
  }

  lemma Assoc<T>(a: seq<T>, b: seq<T>, c: seq<T>)
    ensures (a + b) + c == a + (b + c)
  {}

  lemma DropDrop<T>(t: seq<T>, m: nat, n: nat)
    requires m + n <= |t|
    ensures t[m..][n..] == t[m + n..]
  {}

  lemma DropAppend<T>(a: seq<T>, b: seq<T>, n: nat)
    requires n <= |a|
    ensures (a + b)[n..] == a[n..] + b
  {}

  /** A number followed by anything that cannot continue it is matched exactly. */
  lemma MatchNumberAppend(t: Text, rest: Text)
    requires |t| > 0 && MatchNumber(t) == |t|
    requires rest == [] || EndsNumber(rest[0])
    ensures MatchNumber(t + rest) == |t|
  {
    var u := t + rest;
    var s := if t[0] == MINUS then 1 else 0;
    DropAppend(t, rest, s);
    DigitsAppend(t[s..], rest);
    var p := s + Digits(t[s..]);
    FractionEndAppend(t, rest, p);
    ExponentEndAppend(t, rest, FractionEnd(t, p));
  }

  lemma FractionEndAppend(t: Text, rest: Text, p: nat)
    requires p <= |t|
    requires rest == [] || EndsNumber(rest[0])
    ensures FractionEnd(t + rest, p) == FractionEnd(t, p)
  {
    if p < |t| && t[p] == DOT {
      DropAppend(t, rest, p + 1);
      DigitsAppend(t[p + 1..], rest);
    }
  }

  lemma ExponentEndAppend(t: Text, rest: Text, p: nat)
    requires p <= |t| && ExponentEnd(t, p) == |t|
    requires rest == [] || EndsNumber(rest[0])
    ensures ExponentEnd(t + rest, p) == |t|
  {
    if p < |t| {
      var q := if p + 1 < |t| && (t[p + 1] == PLUS || t[p + 1] == MINUS) then p + 2 else p + 1;
      DropAppend(t, rest, q);
      DigitsAppend(t[q..], rest);
    }
  }
}
