/** quote, str and JSON.stringify of login.js.

    Spec functions (Quote, Print) say which text is produced; the class Stringifier
    has the source's shared mutable gap and builds the text in loops. */
module JsonPrinter {
  import opened Wrappers
  import opened JsonText

  /** What String(number) writes for a finite number. */
  type NumberText = t: Text | IsNumber(t) witness [ZERO]

  /** A finite JavaScript value tree. Undefined stands for every value without a JSON
      form (undefined, functions); members are in enumeration order. */
  datatype Value =
    | Undefined
    | Null
    | Bool(b: bool)
    | Finite(n: NumberText)
    | NonFinite
    | Str(s: Text)
    | Arr(elems: seq<Value>)
    | Obj(members: seq<Member>)

  datatype Member = Member(key: Text, value: Value)

  // --- quote ---------------------------------------------------------------

  /** The table meta: the character after the backslash, if there is a short form. */
  function Meta(c: CodeUnit): Option<CodeUnit> {
    if c == 0x08 then Some(0x62)
    else if c == 0x09 then Some(0x74)
    else if c == NEWLINE then Some(0x6E)
    else if c == 0x0C then Some(0x66)
    else if c == RETURN then Some(0x72)
    else if c == QUOTE then Some(QUOTE)
    else if c == BACKSLASH then Some(BACKSLASH)
    else None
  }

  function Escape(c: CodeUnit): Text {
    match Meta(c)
    case Some(m) => [BACKSLASH, m]
    case None => UnicodeEscape(c)
  }

  /** string.replace(escapable, ...) */
  function ReplaceEscapable(s: Text): Text {
    if s == [] then []
    else (if IsEscapable(s[0]) then Escape(s[0]) else [s[0]]) + ReplaceEscapable(s[1..])
  }

  function Quote(s: Text): Text {
    if exists c <- s :: IsEscapable(c) then [QUOTE] + ReplaceEscapable(s) + [QUOTE]
    else [QUOTE] + s + [QUOTE]
  }

  // --- str -----------------------------------------------------------------

  /** Array.prototype.join */
  function Join(parts: seq<Text>, separator: Text): Text {
    if parts == [] then []
    else if |parts| == 1 then parts[0]
    else parts[0] + separator + Join(parts[1..], separator)
  }

  /** The text around the joined parts, with and without indentation. */
  function Wrap(open: CodeUnit, close: CodeUnit, parts: seq<Text>, gap: Text, mind: Text): Text {
    if parts == [] then [open, close]
    else if gap != [] then
      [open, NEWLINE] + gap + Join(parts, [COMMA, NEWLINE] + gap) + [NEWLINE] + mind + [close]
    else [open] + Join(parts, [COMMA]) + [close]
  }

  function Colon(gap: Text): Text {
    if gap != [] then [COLON, SPACE] else [COLON]
  }

  /** The text str returns for a value when the gap is mind; None is undefined. */
  function Print(v: Value, mind: Text, indent: Text): (r: Option<Text>)
    ensures r.Some? <==> !v.Undefined?
    ensures r.Some? ==> r.value != []
    decreases v, 0
  {
    match v
    case Undefined => None
    case Null => Some(NULL)
    case Bool(b) => Some(if b then TRUE else FALSE)
    case Finite(n) => Some(n)
    case NonFinite => Some(NULL)
    case Str(s) => Some(Quote(s))
    case Arr(elems) =>
      Some(Wrap(LBRACKET, RBRACKET, PrintElems(elems, mind + indent, indent), mind + indent, mind))
    case Obj(members) =>
      Some(Wrap(LBRACE, RBRACE, PrintMembers(members, mind + indent, indent), mind + indent, mind))
  }

  function PrintElems(es: seq<Value>, gap: Text, indent: Text): (r: seq<Text>)
    ensures |r| == |es|
    decreases es, 1
  {
    if es == [] then []
    else
      var v := Print(es[0], gap, indent);
      [if v.Some? then v.value else NULL] + PrintElems(es[1..], gap, indent)
  }

  function PrintMembers(ms: seq<Member>, gap: Text, indent: Text): seq<Text>
    decreases ms, 1
  {
    if ms == [] then []
    else
      var v := Print(ms[0].value, gap, indent);
      var rest := PrintMembers(ms[1..], gap, indent);
      if v.Some? then [Quote(ms[0].key) + Colon(gap) + v.value] + rest else rest
  }

  /** The third argument of JSON.stringify. */
  datatype Space = NoSpace | Count(n: int) | Literal(t: Text)

  /** A number of blanks, none for a number that is not positive, or the text itself. */
  function IndentOf(space: Space): (r: Text)
    ensures space.Count? ==> (forall c <- r :: c == 0x20) && |r| == if space.n > 0 then space.n else 0
  {
    match space
    case NoSpace => []
    case Count(n) => if n <= 0 then [] else seq(n, i => SPACE)
    case Literal(t) => t
  }

  function Stringify(v: Value, indent: Text): Option<Text> {
    Print(v, [], indent)
  }

  class Stringifier {
    var gap: Text
    var indent: Text

    constructor ()
      ensures gap == [] && indent == []
    {
      gap, indent := [], [];
    }

    /** str(key, holder), with value = holder[key]. Every call leaves the gap as it found it. */
    method Str(value: Value) returns (r: Option<Text>)
      modifies this`gap
      ensures gap == old(gap)
      ensures r == Print(value, old(gap), indent)
      decreases value
    {
      var mind := gap;
      match value {
        case Undefined => return None;
        case Null => return Some(NULL);
        case Bool(b) => return Some(if b then TRUE else FALSE);
        case Finite(n) => return Some(n);
        case NonFinite => return Some(NULL);
        case Str(s) => return Some(Quote(s));
        case Arr(elems) =>
          gap := gap + indent;
          var partial: seq<Text> := [];
          var i := 0;
          while i < |elems|
            invariant 0 <= i <= |elems|
            invariant gap == mind + indent
            invariant partial + PrintElems(elems[i..], gap, indent) == PrintElems(elems, gap, indent)
          {
            var v := Str(elems[i]);
            partial := partial + [if v.Some? then v.value else NULL];
            assert elems[i..][1..] == elems[i + 1..];
            i := i + 1;
          }
          assert partial == PrintElems(elems, gap, indent);
          r := Some(if |partial| == 0 then [LBRACKET, RBRACKET]
                    else if gap != [] then
                      [LBRACKET, NEWLINE] + gap + Join(partial, [COMMA, NEWLINE] + gap) + [NEWLINE] + mind + [RBRACKET]
                    else [LBRACKET] + Join(partial, [COMMA]) + [RBRACKET]);
          gap := mind;
        case Obj(members) =>
          gap := gap + indent;
          var partial: seq<Text> := [];
          var i := 0;
          while i < |members|
            invariant 0 <= i <= |members|
            invariant gap == mind + indent
            invariant partial + PrintMembers(members[i..], gap, indent) == PrintMembers(members, gap, indent)
          {
            var k := members[i].key;
            var v := Str(members[i].value);
            if v.Some? {
              partial := partial + [Quote(k) + (if gap != [] then [COLON, SPACE] else [COLON]) + v.value];
            }
            assert members[i..][1..] == members[i + 1..];
            i := i + 1;
          }
          assert partial == PrintMembers(members, gap, indent);
          r := Some(if |partial| == 0 then [LBRACE, RBRACE]
                    else if gap != [] then
                      [LBRACE, NEWLINE] + gap + Join(partial, [COMMA, NEWLINE] + gap) + [NEWLINE] + mind + [RBRACE]
                    else [LBRACE] + Join(partial, [COMMA]) + [RBRACE]);
          gap := mind;
      }
    }

    /** JSON.stringify(value, undefined, space) */
    method StringifyValue(value: Value, space: Space) returns (r: Option<Text>)
      modifies this
      ensures gap == [] && indent == IndentOf(space)
      ensures r == Stringify(value, IndentOf(space))
    {
      gap := [];
      indent := [];
      match space {
        case NoSpace =>
        case Count(n) =>
          var i := 0;
          while i < n
            invariant 0 <= i && (i <= n || i == 0)
            invariant indent == seq(i, j => SPACE)
            invariant gap == []
          {
            indent := indent + [SPACE];
            i := i + 1;
          }
        case Literal(t) => indent := t;
      }
      r := Str(value);
    }
  }
}
