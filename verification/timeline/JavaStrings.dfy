/** String.split and Long parsing as the timeline and user code uses them. */
module JavaStrings {
  import opened Wrappers
  import opened Decimal

  /** What one more character in front makes of the pieces. */
  function Before(c: char, ps: seq<string>, sep: char): seq<string>
    requires |ps| >= 1
  {
    if c == sep then [""] + ps else [[c] + ps[0]] + ps[1..]
  }

  /** The pieces between the separators, empty ones included; always at least one. */
  function Pieces(s: string, sep: char): (ps: seq<string>)
    ensures |ps| >= 1
    ensures forall p <- ps :: sep !in p
  {
    if s == "" then [""] else Before(s[0], Pieces(s[1..], sep), sep)
  }

  function DropTrailingEmpty(ps: seq<string>): seq<string> {
    if ps == [] || ps[|ps| - 1] != "" then ps else DropTrailingEmpty(ps[..|ps| - 1])
  }

  /** s.split(sep): without a separator the whole string, else the pieces up to the last
      one that is not empty. */
  function Split(s: string, sep: char): seq<string> {
    if sep !in s then [s] else DropTrailingEmpty(Pieces(s, sep))
  }

  /** Exactly the empty pieces at the end are dropped. */
  lemma {:induction false} DropExact(ps: seq<string>) returns (n: nat)
    ensures n <= |ps| && DropTrailingEmpty(ps) == ps[..n]
    ensures forall k :: n <= k < |ps| ==> ps[k] == ""
    ensures n > 0 ==> ps[n - 1] != ""
  {
    if ps == [] || ps[|ps| - 1] != "" {
      n := |ps|;
    } else {
      n := DropExact(ps[..|ps| - 1]);
    }
  }

  /** new Long(s); None stands for NumberFormatException. */
  function ParseLong(s: string): Option<int> {
    if s != "" && s[0] == '-' then
      if |s| > 1 && AllDigits(s[1..]) then Some(0 - Value(s[1..])) else None
    else if s != "" && AllDigits(s) then Some(Value(s)) else None
  }

  lemma NumeralParts(s: string, minus: bool, digits: string)
    requires IsNumeral(s, minus, digits)
    ensures s != "" && (minus <==> s[0] == '-') && digits == if minus then s[1..] else s
  {
    if !minus {
      assert "" + digits == digits && s[0] == digits[0];
    }
  }

  /** What it reads: digits, at most one minus in front, and nothing else. */
  lemma ParseLongExact(s: string, n: int)
    ensures ParseLong(s) == Some(n) <==>
            exists minus: bool, digits: string :: IsNumeral(s, minus, digits) && n == if minus then 0 - Value(digits) else Value(digits)
  {
    if ParseLong(s) == Some(n) {
      if s[0] == '-' {
        assert IsNumeral(s, true, s[1..]);
      } else {
        assert "" + s == s;
        assert IsNumeral(s, false, s);
      }
    }
    forall minus: bool, digits: string | IsNumeral(s, minus, digits)
      ensures ParseLong(s) == Some(if minus then 0 - Value(digits) else Value(digits))
    {
      NumeralParts(s, minus, digits);
    }
  }

  predicate IsNumeral(s: string, minus: bool, digits: string) {
    digits != "" && AllDigits(digits) && s == (if minus then "-" else "") + digits
  }

  lemma ParseLongReads(n: int)
    ensures ParseLong(DecInt(n)) == Some(n)
  {
    var digits := Dec(if n < 0 then -n else n);
    DecValue(if n < 0 then -n else n);
    assert "" + digits == digits;
    assert IsNumeral(DecInt(n), n < 0, digits);
    ParseLongExact(DecInt(n), n);
  }

  lemma {:induction false} PiecesOfOne(a: string, sep: char)
    requires sep !in a
    ensures Pieces(a, sep) == [a]
  {
    if a != "" {
      assert a[0] in a;
      PiecesOfOne(a[1..], sep);
      assert [a[0]] + a[1..] == a;
    }
  }

  lemma {:induction false} PiecesConcat(a: string, b: string, sep: char)
    ensures Pieces(a + [sep] + b, sep) == Pieces(a, sep) + Pieces(b, sep)
  {
    var s := a + [sep] + b;
    if a == "" {
      assert s[1..] == b;
    } else {
      PiecesConcat(a[1..], b, sep);
      assert s[1..] == a[1..] + [sep] + b && s[0] == a[0];
      BeforeConcat(a[0], Pieces(a[1..], sep), Pieces(b, sep), sep);
    }
  }

  lemma BeforeConcat(c: char, ps: seq<string>, qs: seq<string>, sep: char)
    requires |ps| >= 1
    ensures Before(c, ps + qs, sep) == Before(c, ps, sep) + qs
  {}

  lemma PiecesOfTwo(a: string, b: string, sep: char)
    requires sep !in a
    ensures Pieces(a + [sep] + b, sep) == [a] + Pieces(b, sep)
  {
    PiecesConcat(a, b, sep);
    PiecesOfOne(a, sep);
  }

  lemma PiecesAppend(a: string, b: string, sep: char)
    requires sep !in b
    ensures Pieces(a + [sep] + b, sep) == Pieces(a, sep) + [b]
  {
    PiecesConcat(a, b, sep);
    PiecesOfOne(b, sep);
  }

  lemma {:induction false} DropKeepsNames(ps: seq<string>, n: string)
    requires n != ""
    ensures n in DropTrailingEmpty(ps) <==> n in ps
  {
    if ps != [] && ps[|ps| - 1] == "" {
      DropKeepsNames(ps[..|ps| - 1], n);
      assert ps == ps[..|ps| - 1] + [""];
    }
  }

  /** A piece that is not empty is never dropped. */
  lemma SplitPieces(s: string, sep: char, n: string)
    requires n != ""
    ensures n in Split(s, sep) <==> n in Pieces(s, sep)
  {
    DropKeepsNames(Pieces(s, sep), n);
    if sep !in s {
      PiecesOfOne(s, sep);
    }
  }

  /** There are two pieces or more exactly when there is a separator. */
  lemma {:induction false} PiecesCount(s: string, sep: char)
    ensures |Pieces(s, sep)| > 1 <==> sep in s
  {
    if s != "" {
      PiecesCount(s[1..], sep);
      assert s == [s[0]] + s[1..];
    }
  }

  /** Text without a separator, put behind, lengthens the last piece. */
  lemma {:induction false} PiecesLengthen(s: string, more: string, sep: char)
    requires sep !in more
    ensures Pieces(s + more, sep) == WithLast(Pieces(s, sep), more)
  {
    if s == "" {
      PiecesOfOne(more, sep);
      assert s + more == more;
    } else {
      PiecesLengthen(s[1..], more, sep);
      assert (s + more)[0] == s[0] && (s + more)[1..] == s[1..] + more;
      LongerLast(Pieces(s[1..], sep), s[0], more, sep);
    }
  }

  function WithLast(ps: seq<string>, more: string): seq<string>
    requires |ps| >= 1
  {
    ps[..|ps| - 1] + [ps[|ps| - 1] + more]
  }

  lemma LongerLast(ps: seq<string>, c: char, more: string, sep: char)
    requires |ps| >= 1
    ensures Before(c, WithLast(ps, more), sep) == WithLast(Before(c, ps, sep), more)
  {
    if c != sep && |ps| == 1 {
      assert [c] + (ps[0] + more) == [c] + ps[0] + more;
    }
  }

  /** Nothing is dropped when the last piece is not empty. */
  lemma SplitKeeps(s: string, sep: char)
    requires var ps := Pieces(s, sep); ps[|ps| - 1] != ""
    ensures Split(s, sep) == Pieces(s, sep)
  {
    if sep !in s {
      PiecesOfOne(s, sep);
    }
  }

  /** A dash behind something is not part of a number. */
  lemma DashIsNoSign(s: string, digits: string)
    requires s != ""
    ensures ParseLong(s + "-" + digits) == None
  {
    var t := s + "-" + digits;
    assert t[|s|] == '-';
    if t[0] == '-' {
      assert t[1..][|s| - 1] == '-';
    }
  }

  lemma {:induction false} DropKeepsFirst(ps: seq<string>)
    ensures DropTrailingEmpty(ps) <= ps
    ensures DropTrailingEmpty(ps) != [] ==> DropTrailingEmpty(ps)[0] == ps[0]
  {
    if ps != [] && ps[|ps| - 1] == "" {
      DropKeepsFirst(ps[..|ps| - 1]);
    }
  }
}
