// JSON values, the two ways they are written (section 7 of RFC 8259 for strings) and how the loader reads them back.
// Scalars other than integers and strings are their text.
module JsonText {
  import opened Characters
  import opened Sequences
  import opened Wrappers
  import Decimal

  datatype Json =
    | Null
    | Bool(b: bool)
    | Int(n: int)
    | Real(text: string)
    | Str(s: string)
    | Arr(elems: seq<Json>)
    | Obj(fields: seq<Field>)

  datatype Field = Field(key: string, val: Json)

  const MIN_INT: int := -0x8000_0000_0000_0000
  const MAX_UINT: int := 0xFFFF_FFFF_FFFF_FFFF

  predicate DistinctKeys(fields: seq<Field>) {
    forall i, j | 0 <= i < j < |fields| :: fields[i].key != fields[j].key
  }

  // Text of a number with a fraction or an exponent; its digits are left to the JSON library.
  predicate RealText(t: string) {
    && t != "" && (t[0] == '-' || Decimal.IsDigit(t[0]))
    && (forall c <- t :: AtomChar(c))
    && ('.' in t || 'e' in t || 'E' in t)
  }

  predicate Valid(v: Json) {
    match v
    case Int(n) => MIN_INT <= n <= MAX_UINT
    case Real(t) => RealText(t)
    case Arr(es) => forall e <- es :: Valid(e)
    case Obj(fs) => DistinctKeys(fs) && forall f <- fs :: Valid(f.val)
    case _ => true
  }

  // ---- characters and tokens ----

  predicate Blank(c: char) {
    c == ' ' || c == '\t' || c == '\n' || c == '\r'
  }

  predicate AtomChar(c: char) {
    'a' <= c <= 'z' || 'A' <= c <= 'Z' || '0' <= c <= '9' || c == '+' || c == '-' || c == '.'
  }

  datatype Token = LBrace | RBrace | LBracket | RBracket | Comma | Colon | Text(s: string) | Atom(text: string)

  // ---- quoted strings ----

  function EscapeChar(c: char): string {
    if c == '"' then "\\\""
    else if c == '\\' then "\\\\"
    else if c as int == 8 then "\\b"
    else if c as int == 12 then "\\f"
    else if c == '\n' then "\\n"
    else if c == '\r' then "\\r"
    else if c == '\t' then "\\t"
    else if c as int < 32 then "\\u00" + [HexLower(c as int / 16), HexLower(c as int % 16)]
    else [c]
  }

  function Escape(s: string): string {
    if s == "" then "" else EscapeChar(s[0]) + Escape(s[1..])
  }

  function Quote(s: string): string {
    "\"" + Escape(s) + "\""
  }

  function SimpleEscape(c: char): Option<char> {
    match c
    case '"' => Some('"')
    case '\\' => Some('\\')
    case '/' => Some('/')
    case 'b' => Some(8 as char)
    case 'f' => Some(12 as char)
    case 'n' => Some('\n')
    case 'r' => Some('\r')
    case 't' => Some('\t')
    case _ => None
  }

  // Code point of four hexadecimal digits; halves of surrogate pairs are refused.
  function CodePoint(s: string): Option<char>
    requires |s| == 4
  {
    match (HexValue(s[0]), HexValue(s[1]), HexValue(s[2]), HexValue(s[3]))
    case (Some(a), Some(b), Some(c), Some(d)) =>
      var n := 4096 * a + 256 * b + 16 * c + d;
      if n < 0xD800 || 0xE000 <= n <= 0xFFFF then Some(n as char) else None
    case _ => None
  }

  datatype Lexeme = Lexeme(s: string, rest: string)

  // Reads the characters of a string up to its closing quote.
  function Unquote(s: string): (r: Option<Lexeme>)
    ensures r.Some? ==> |r.value.rest| < |s|
  {
    if s == "" || s[0] as int < 32 then None
    else if s[0] == '"' then Some(Lexeme("", s[1..]))
    else if s[0] != '\\' then Cons(s[0], Unquote(s[1..]))
    else if |s| >= 6 && s[1] == 'u' then
      match CodePoint(s[2..6])
      case Some(c) => Cons(c, Unquote(s[6..]))
      case None => None
    else if |s| >= 2 then
      match SimpleEscape(s[1])
      case Some(c) => Cons(c, Unquote(s[2..]))
      case None => None
    else None
  }

  function Cons(c: char, r: Option<Lexeme>): Option<Lexeme> {
    if r.Some? then Some(Lexeme([c] + r.value.s, r.value.rest)) else None
  }

  lemma UnquoteOne(c: char, t: string)
    ensures Unquote(EscapeChar(c) + t) == Cons(c, Unquote(t))
  {
    if |EscapeChar(c)| == 6 {
      UnquoteHex(c, t);
    } else if |EscapeChar(c)| == 2 {
      UnquoteSimple(c, t);
    } else {
      assert ([c] + t)[1..] == t;
    }
  }

  lemma UnquoteSimple(c: char, t: string)
    requires |EscapeChar(c)| == 2
    ensures Unquote(EscapeChar(c) + t) == Cons(c, Unquote(t))
  {
    var e := EscapeChar(c);
    assert SimpleEscape(e[1]) == Some(c) && e[0] == '\\' && e[1] != 'u';
    hide EscapeChar, SimpleEscape, CodePoint;
    assert (e + t)[2..] == t;
  }

  lemma UnquoteHex(c: char, t: string)
    requires |EscapeChar(c)| == 6
    ensures Unquote(EscapeChar(c) + t) == Cons(c, Unquote(t))
  {
    hide EscapeChar, SimpleEscape, CodePoint;
    var e := EscapeChar(c);
    HexEscape(c);
    assert (e + t)[6..] == t && (e + t)[2..6] == e[2..6];
  }

  lemma HexEscape(c: char)
    requires |EscapeChar(c)| == 6
    ensures var e := EscapeChar(c); e[0] == '\\' && e[1] == 'u' && CodePoint(e[2..6]) == Some(c)
  {
    hide Unquote;
    var e := EscapeChar(c);
    assert e == "\\u00" + [HexLower(c as int / 16), HexLower(c as int % 16)];
    assert e[2..6] == ['0', '0', HexLower(c as int / 16), HexLower(c as int % 16)];
  }

  lemma {:induction false} UnquoteQuoted(s: string, t: string)
    ensures Unquote(Escape(s) + "\"" + t) == Some(Lexeme(s, t))
  {
    var q := "\"" + t;
    if s == "" {
      assert Escape(s) + "\"" + t == q;
      assert q[1..] == t;
    } else {
      var u := Escape(s[1..]) + "\"" + t;
      assert Escape(s) + "\"" + t == EscapeChar(s[0]) + u;
      UnquoteOne(s[0], u);
      UnquoteQuoted(s[1..], t);
      assert [s[0]] + s[1..] == s;
    }
  }

  // ---- reading tokens ----

  function Punctuation(c: char): Option<Token> {
    match c
    case '{' => Some(LBrace)
    case '}' => Some(RBrace)
    case '[' => Some(LBracket)
    case ']' => Some(RBracket)
    case ',' => Some(Comma)
    case ':' => Some(Colon)
    case _ => None
  }

  function AtomLength(s: string): (n: nat)
    ensures n <= |s|
  {
    if s != "" && AtomChar(s[0]) then 1 + AtomLength(s[1..]) else 0
  }

  function AfterLine(s: string): (r: string)
    ensures |r| <= |s|
  {
    if s == "" then "" else if s[0] == '\n' then s[1..] else AfterLine(s[1..])
  }

  function AfterBlock(s: string): (r: Option<string>)
    ensures r.Some? ==> |r.value| <= |s|
  {
    if |s| < 2 then None else if s[0] == '*' && s[1] == '/' then Some(s[2..]) else AfterBlock(s[1..])
  }

  function Prepend(ts: seq<Token>, r: Option<seq<Token>>): Option<seq<Token>> {
    if r.Some? then Some(ts + r.value) else None
  }

  // Section 2 of RFC 8259, with the comments that the loader allows.
  function Lex(s: string): Option<seq<Token>>
    decreases |s|
  {
    if s == "" then Some([])
    else if Blank(s[0]) then Lex(s[1..])
    else if Punctuation(s[0]).Some? then Prepend([Punctuation(s[0]).value], Lex(s[1..]))
    else if s[0] == '"' then
      match Unquote(s[1..])
      case Some(l) => Prepend([Text(l.s)], Lex(l.rest))
      case None => None
    else if AtomChar(s[0]) then Prepend([Atom(s[..AtomLength(s)])], Lex(s[AtomLength(s)..]))
    else if |s| >= 2 && s[0] == '/' && s[1] == '/' then Lex(AfterLine(s[2..]))
    else if |s| >= 2 && s[0] == '/' && s[1] == '*' then
      match AfterBlock(s[2..])
      case Some(r) => Lex(r)
      case None => None
    else None
  }

  // ---- writing ----

  function Number(n: int): string {
    if n < 0 then "-" + Decimal.Digits(-n) else Decimal.Digits(n)
  }

  function ScalarText(v: Json): string
    requires !v.Arr? && !v.Obj?
  {
    match v
    case Null => "null"
    case Bool(b) => if b then "true" else "false"
    case Int(n) => Number(n)
    case Real(t) => t
    case Str(s) => Quote(s)
  }

  // Configuration::dump: boost::json::serialize
  function Compact(v: Json): string {
    match v
    case Arr(es) => "[" + CompactElems(es) + "]"
    case Obj(fs) => "{" + CompactFields(fs) + "}"
    case _ => ScalarText(v)
  }

  function CompactElems(es: seq<Json>): string {
    if es == [] then "" else Compact(es[0]) + (if |es| > 1 then "," else "") + CompactElems(es[1..])
  }

  function CompactFields(fs: seq<Field>): string {
    if fs == [] then "" else CompactField(fs[0], |fs| > 1) + CompactFields(fs[1..])
  }

  function CompactField(f: Field, more: bool): string {
    Quote(f.key) + ":" + Compact(f.val) + (if more then "," else "")
  }

  function Pad(indent: nat): string {
    seq(2 * indent, _ => ' ')
  }

  function Pretty(v: Json, indent: nat): string {
    match v
    case Arr(es) => if es == [] then "[]" else "[\n" + PrettyElems(es, indent + 1) + Pad(indent) + "]"
    case Obj(fs) => if fs == [] then "{}" else "{\n" + PrettyFields(fs, indent + 1) + Pad(indent) + "}"
    case _ => ScalarText(v)
  }

  function PrettyElems(es: seq<Json>, indent: nat): string {
    if es == [] then ""
    else Pad(indent) + Pretty(es[0], indent) + (if |es| > 1 then ",\n" else "\n") + PrettyElems(es[1..], indent)
  }

  function PrettyFields(fs: seq<Field>, indent: nat): string {
    if fs == [] then ""
    else PrettyField(fs[0], indent, |fs| > 1) + PrettyFields(fs[1..], indent)
  }

  function PrettyField(f: Field, indent: nat, more: bool): string {
    Pad(indent) + Quote(f.key) + ": " + Pretty(f.val, indent) + (if more then ",\n" else "\n")
  }

  // ---- the tokens of a value ----

  function ScalarToken(v: Json): Token
    requires !v.Arr? && !v.Obj?
  {
    match v
    case Str(s) => Text(s)
    case _ => Atom(ScalarText(v))
  }

  function Tokens(v: Json): seq<Token> {
    match v
    case Arr(es) => [LBracket] + ElemTokens(es) + [RBracket]
    case Obj(fs) => [LBrace] + FieldTokens(fs) + [RBrace]
    case _ => [ScalarToken(v)]
  }

  function ElemTokens(es: seq<Json>): seq<Token> {
    if es == [] then [] else Tokens(es[0]) + (if |es| > 1 then [Comma] else []) + ElemTokens(es[1..])
  }

  function FieldTokens(fs: seq<Field>): seq<Token> {
    if fs == [] then []
    else [Text(fs[0].key), Colon] + Tokens(fs[0].val) + (if |fs| > 1 then [Comma] else []) + FieldTokens(fs[1..])
  }

  // ---- the written text has the tokens of the value ----

  predicate Delimited(rest: string) {
    rest == "" || !AtomChar(rest[0])
  }

  predicate AtomText(t: string) {
    t != "" && forall c <- t :: AtomChar(c)
  }

  lemma {:induction false} AtomRun(t: string, rest: string)
    requires (forall c <- t :: AtomChar(c)) && Delimited(rest)
    ensures AtomLength(t + rest) == |t|
  {
    if t == "" {
      assert t + rest == rest;
    } else {
      assert (t + rest)[1..] == t[1..] + rest;
      AtomRun(t[1..], rest);
    }
  }

  lemma AtomCharsStandAlone(c: char)
    requires AtomChar(c)
    ensures !Blank(c) && Punctuation(c).None? && c != '"'
  {
  }

  lemma LexAtom(t: string, rest: string)
    requires AtomText(t) && Delimited(rest)
    ensures Lex(t + rest) == Prepend([Atom(t)], Lex(rest))
  {
    hide AtomChar, Blank, Punctuation, AtomLength, Unquote, AfterLine, AfterBlock, Prepend;
    AtomRun(t, rest);
    var s := t + rest;
    assert s[..|t|] == t && s[|t|..] == rest;
    assert s[0] == t[0] && t[0] in t;
    AtomCharsStandAlone(s[0]);
  }

  lemma LexQuote(t: string, rest: string)
    ensures Lex(Quote(t) + rest) == Prepend([Text(t)], Lex(rest))
  {
    hide Unquote, Escape, AtomChar, AtomLength, AfterLine, AfterBlock, Prepend;
    var s := Quote(t) + rest;
    assert s[1..] == Escape(t) + "\"" + rest && s[0] == '"';
    UnquoteQuoted(t, rest);
  }

  lemma {:induction false} LexSpaces(w: string, rest: string)
    requires forall c <- w :: Blank(c)
    ensures Lex(w + rest) == Lex(rest)
  {
    if w == "" {
      assert w + rest == rest;
    } else {
      assert (w + rest)[1..] == w[1..] + rest;
      LexSpaces(w[1..], rest);
    }
  }

  lemma LexPunctuation(c: char, rest: string)
    requires Punctuation(c).Some?
    ensures Lex([c] + rest) == Prepend([Punctuation(c).value], Lex(rest))
  {
    assert ([c] + rest)[1..] == rest;
  }

  lemma NumberIsAtom(n: int)
    ensures AtomText(Number(n))
  {
    forall c <- Number(n) ensures AtomChar(c) {
      var d := Decimal.Digits(if n < 0 then -n else n);
      assert c == '-' || c in d;
    }
  }

  lemma LexScalar(v: Json, rest: string)
    requires !v.Arr? && !v.Obj? && Valid(v) && Delimited(rest)
    ensures Lex(ScalarText(v) + rest) == Prepend([ScalarToken(v)], Lex(rest))
  {
    match v
    case Str(s) => LexQuote(s, rest);
    case Int(n) => NumberIsAtom(n); LexAtom(Number(n), rest);
    case Null => LexAtom("null", rest);
    case Bool(b) => LexAtom(if b then "true" else "false", rest);
    case Real(t) => LexAtom(t, rest);
  }

  lemma PrependTwice(a: seq<Token>, b: seq<Token>, r: Option<seq<Token>>)
    ensures Prepend(a, Prepend(b, r)) == Prepend(a + b, r)
  {
    if r.Some? { assert a + (b + r.value) == a + b + r.value; }
  }

  lemma PrependNothing(r: Option<seq<Token>>)
    ensures Prepend([], r) == r
  {
    if r.Some? { assert [] + r.value == r.value; }
  }

  // The separator after an element or a field.
  lemma LexSeparator(more: bool, pretty: bool, rest: string)
    ensures var sep := if more then (if pretty then ",\n" else ",") else if pretty then "\n" else "";
      Lex(sep + rest) == Prepend(if more then [Comma] else [], Lex(rest))
  {
    hide Lex, AtomLength, Unquote;
    PrependNothing(Lex(rest));
    var sep := if more then (if pretty then ",\n" else ",") else if pretty then "\n" else "";
    var tail := if pretty then "\n" + rest else rest;
    if pretty { LexSpaces("\n", rest); }
    if more {
      assert sep + rest == [','] + tail;
      LexPunctuation(',', tail);
    } else {
      assert sep + rest == tail;
    }
  }

  // Wraps the lexed body of a non-empty array or object in its brackets.
  lemma LexBrackets(open: char, close: char, body: string, inner: seq<Token>, pad: string, rest: string)
    requires Punctuation(open).Some? && Punctuation(close).Some? && forall c <- pad :: Blank(c)
    requires Lex(body + (pad + ([close] + rest))) == Prepend(inner, Lex(pad + ([close] + rest)))
    ensures Lex([open] + (body + (pad + ([close] + rest))))
         == Prepend([Punctuation(open).value] + inner + [Punctuation(close).value], Lex(rest))
  {
    hide Lex;
    var o, c := Punctuation(open).value, Punctuation(close).value;
    LexSpaces(pad, [close] + rest);
    LexPunctuation(close, rest);
    PrependTwice(inner, [c], Lex(rest));
    LexPunctuation(open, body + (pad + ([close] + rest)));
    PrependTwice([o], inner + [c], Lex(rest));
    assert [o] + (inner + [c]) == [o] + inner + [c];
  }

  lemma LexPretty(v: Json, indent: nat, rest: string)
    requires Valid(v) && Delimited(rest)
    ensures Lex(Pretty(v, indent) + rest) == Prepend(Tokens(v), Lex(rest))
    decreases v, 0
  {
    match v
    case Arr(es) => LexPrettyArr(es, indent, rest);
    case Obj(fs) => LexPrettyObj(fs, indent, rest);
    case _ => LexScalar(v, rest);
  }

  // The text of an array or object whose elements or fields take up lines of their own.
  function Lines(open: char, close: char, inner: string, indent: nat): string {
    if inner == "" then [open, close] else [open] + ("\n" + inner) + Pad(indent) + [close]
  }

  lemma LexLines(open: char, close: char, inner: string, tokens: seq<Token>, indent: nat, rest: string)
    requires Punctuation(open).Some? && Punctuation(close).Some?
    requires forall tail | Delimited(tail) :: Lex(inner + tail) == Prepend(tokens, Lex(tail))
    requires !AtomChar(close) && !AtomChar(' ')
    ensures Lex(Lines(open, close, inner, indent) + rest)
         == Prepend([Punctuation(open).value] + tokens + [Punctuation(close).value], Lex(rest))
  {
    hide Lex, Prepend, Punctuation, AtomChar;
    var body := if inner == "" then "" else "\n" + inner;
    var pad := if inner == "" then "" else Pad(indent);
    var tail := pad + ([close] + rest);
    assert Delimited(tail);
    assert Lex(inner + tail) == Prepend(tokens, Lex(tail));
    if inner == "" { assert body + tail == inner + tail; } else { LexLine(inner, tail); }
    LexBrackets(open, close, body, tokens, pad, rest);
    Regroup5([open], body, pad, [close], rest);
    assert inner == "" ==> [open] + "" + "" + [close] == [open, close];
  }

  lemma LexPrettyArr(es: seq<Json>, indent: nat, rest: string)
    requires Valid(Arr(es)) && Delimited(rest)
    ensures Lex(Pretty(Arr(es), indent) + rest) == Prepend(Tokens(Arr(es)), Lex(rest))
    decreases es, 3
  {
    hide Lex, AtomLength, Unquote, Prepend;
    forall tail | Delimited(tail)
      ensures Lex(PrettyElems(es, indent + 1) + tail) == Prepend(ElemTokens(es), Lex(tail))
    {
      LexPrettyElems(es, indent + 1, tail);
    }
    LexLines('[', ']', PrettyElems(es, indent + 1), ElemTokens(es), indent, rest);
    PrettyArrText(es, indent);
  }

  lemma PrettyArrText(es: seq<Json>, indent: nat)
    ensures Pretty(Arr(es), indent) == Lines('[', ']', PrettyElems(es, indent + 1), indent)
  {
    hide Pad;
    if es != [] {
      var inner := PrettyElems(es, indent + 1);
      assert inner != "";
      assert "[\n" + inner == "[" + ("\n" + inner);
    }
  }

  lemma LexPrettyObj(fs: seq<Field>, indent: nat, rest: string)
    requires Valid(Obj(fs)) && Delimited(rest)
    ensures Lex(Pretty(Obj(fs), indent) + rest) == Prepend(Tokens(Obj(fs)), Lex(rest))
    decreases fs, 3
  {
    hide Lex, AtomLength, Unquote, Prepend;
    forall tail | Delimited(tail)
      ensures Lex(PrettyFields(fs, indent + 1) + tail) == Prepend(FieldTokens(fs), Lex(tail))
    {
      LexPrettyFields(fs, indent + 1, tail);
    }
    LexLines('{', '}', PrettyFields(fs, indent + 1), FieldTokens(fs), indent, rest);
    PrettyObjText(fs, indent);
  }

  lemma PrettyObjText(fs: seq<Field>, indent: nat)
    ensures Pretty(Obj(fs), indent) == Lines('{', '}', PrettyFields(fs, indent + 1), indent)
  {
    hide Pad;
    if fs != [] {
      var inner := PrettyFields(fs, indent + 1);
      assert PrettyField(fs[0], indent + 1, |fs| > 1) != "";
      assert inner != "";
      assert "{\n" + inner == "{" + ("\n" + inner);
    }
  }

  lemma LexLine(s: string, tail: string)
    ensures Lex("\n" + s + tail) == Lex(s + tail)
  {
    LexSpaces("\n", s + tail);
    assert "\n" + s + tail == "\n" + (s + tail);
  }

  lemma LexPrettyElems(es: seq<Json>, indent: nat, rest: string)
    requires forall e <- es :: Valid(e)
    ensures Lex(PrettyElems(es, indent) + rest) == Prepend(ElemTokens(es), Lex(rest))
    decreases es, 1
  {
    hide Lex, AtomLength, Unquote, Prepend, Pretty, Tokens, Valid;
    if es == [] {
      PrependNothing(Lex(rest));
      assert PrettyElems(es, indent) + rest == rest;
    } else {
      var more := |es| > 1;
      var sep := if more then ",\n" else "\n";
      var tail := PrettyElems(es[1..], indent) + rest;
      Regroup5(Pad(indent), Pretty(es[0], indent), sep, PrettyElems(es[1..], indent), rest);
      assert sep + (PrettyElems(es[1..], indent) + rest) == sep + tail;
      LexSpaces(Pad(indent), Pretty(es[0], indent) + (sep + tail));
      LexPretty(es[0], indent, sep + tail);
      LexSeparator(more, true, tail);
      LexPrettyElems(es[1..], indent, rest);
      ElemTokensJoin(es, if more then [Comma] else [], Lex(rest));
    }
  }

  lemma ElemTokensJoin(es: seq<Json>, comma: seq<Token>, r: Option<seq<Token>>)
    requires es != [] && comma == if |es| > 1 then [Comma] else []
    ensures Prepend(Tokens(es[0]), Prepend(comma, Prepend(ElemTokens(es[1..]), r))) == Prepend(ElemTokens(es), r)
  {
    hide Prepend, Tokens;
    var t := ElemTokens(es[1..]);
    PrependTwice(comma, t, r);
    PrependTwice(Tokens(es[0]), comma + t, r);
    assert Tokens(es[0]) + (comma + t) == Tokens(es[0]) + comma + t;
  }

  lemma LexKey(key: string, colon: string, rest: string)
    requires colon == ":" || colon == ": "
    ensures Lex(Quote(key) + (colon + rest)) == Prepend([Text(key), Colon], Lex(rest))
  {
    hide Lex, AtomLength, Unquote;
    PrependNothing(Lex(rest));
    LexQuote(key, colon + rest);
    var tail := if colon == ":" then rest else " " + rest;
    assert colon + rest == [':'] + tail;
    LexPunctuation(':', tail);
    if colon == ": " { LexSpaces(" ", rest); }
    PrependTwice([Text(key)], [Colon], Lex(rest));
    assert [Text(key)] + [Colon] == [Text(key), Colon];
  }

  lemma LexPrettyField(f: Field, indent: nat, more: bool, tail: string)
    requires Valid(f.val)
    ensures Lex(PrettyField(f, indent, more) + tail)
         == Prepend([Text(f.key), Colon], Prepend(Tokens(f.val), Prepend(if more then [Comma] else [], Lex(tail))))
    decreases f, 1
  {
    hide Lex, AtomLength, Unquote;
    var sep := if more then ",\n" else "\n";
    var val := Pretty(f.val, indent);
    Regroup5(Pad(indent), Quote(f.key), ": ", val, sep + tail);
    assert PrettyField(f, indent, more) + tail == Pad(indent) + Quote(f.key) + ": " + val + (sep + tail);
    LexSpaces(Pad(indent), Quote(f.key) + (": " + (val + (sep + tail))));
    LexKey(f.key, ": ", val + (sep + tail));
    LexPretty(f.val, indent, sep + tail);
    LexSeparator(more, true, tail);
  }

  lemma LexPrettyFields(fs: seq<Field>, indent: nat, rest: string)
    requires forall f <- fs :: Valid(f.val)
    ensures Lex(PrettyFields(fs, indent) + rest) == Prepend(FieldTokens(fs), Lex(rest))
    decreases fs, 2
  {
    hide Lex, AtomLength, Unquote, PrettyField;
    if fs == [] {
      PrependNothing(Lex(rest));
      assert PrettyFields(fs, indent) + rest == rest;
    } else {
      var tail := PrettyFields(fs[1..], indent) + rest;
      assert PrettyFields(fs, indent) + rest == PrettyField(fs[0], indent, |fs| > 1) + tail;
      LexPrettyField(fs[0], indent, |fs| > 1, tail);
      LexPrettyFields(fs[1..], indent, rest);
      FieldTokensJoin(fs, if |fs| > 1 then [Comma] else [], Lex(rest));
    }
  }

  lemma FieldTokensJoin(fs: seq<Field>, comma: seq<Token>, r: Option<seq<Token>>)
    requires fs != [] && comma == if |fs| > 1 then [Comma] else []
    ensures Prepend([Text(fs[0].key), Colon],
                    Prepend(Tokens(fs[0].val), Prepend(comma, Prepend(FieldTokens(fs[1..]), r))))
         == Prepend(FieldTokens(fs), r)
  {
    hide Prepend, Tokens, FieldTokens;
    var k, v, t := [Text(fs[0].key), Colon], Tokens(fs[0].val), FieldTokens(fs[1..]);
    PrependTwice(comma, t, r);
    PrependTwice(v, comma + t, r);
    PrependTwice(k, v + (comma + t), r);
    Regroup4(k, v, comma, t);
    FieldTokensStep(fs);
  }

  lemma FieldTokensStep(fs: seq<Field>)
    requires fs != []
    ensures FieldTokens(fs)
         == [Text(fs[0].key), Colon] + Tokens(fs[0].val) + (if |fs| > 1 then [Comma] else []) + FieldTokens(fs[1..])
  {
    hide Tokens;
  }

  lemma LexCompact(v: Json, rest: string)
    requires Valid(v) && Delimited(rest)
    ensures Lex(Compact(v) + rest) == Prepend(Tokens(v), Lex(rest))
    decreases v, 0
  {
    hide Lex, AtomLength, Unquote, Prepend, CompactElems, CompactFields, ElemTokens, FieldTokens;
    match v
    case Arr(es) =>
      var tail := "" + ([']'] + rest);
      LexCompactElems(es, tail);
      LexBrackets('[', ']', CompactElems(es), ElemTokens(es), "", rest);
      Regroup5("[", CompactElems(es), "", "]", rest);
      assert "[" + CompactElems(es) + "" == "[" + CompactElems(es);
    case Obj(fs) =>
      var tail := "" + (['}'] + rest);
      LexCompactFields(fs, tail);
      LexBrackets('{', '}', CompactFields(fs), FieldTokens(fs), "", rest);
      Regroup5("{", CompactFields(fs), "", "}", rest);
      assert "{" + CompactFields(fs) + "" == "{" + CompactFields(fs);
    case _ => LexScalar(v, rest);
  }

  lemma LexCompactElems(es: seq<Json>, rest: string)
    requires (forall e <- es :: Valid(e)) && Delimited(rest)
    ensures Lex(CompactElems(es) + rest) == Prepend(ElemTokens(es), Lex(rest))
    decreases es, 1
  {
    hide Lex, AtomLength, Unquote, Prepend, Compact, Tokens, Valid;
    if es == [] {
      PrependNothing(Lex(rest));
      assert CompactElems(es) + rest == rest;
    } else {
      var more := |es| > 1;
      var sep := if more then "," else "";
      var tail := CompactElems(es[1..]) + rest;
      assert CompactElems(es) + rest == Compact(es[0]) + (sep + tail);
      assert !more ==> sep + tail == rest;
      LexCompact(es[0], sep + tail);
      LexSeparator(more, false, tail);
      LexCompactElems(es[1..], rest);
      ElemTokensJoin(es, if more then [Comma] else [], Lex(rest));
    }
  }

  lemma LexCompactFields(fs: seq<Field>, rest: string)
    requires (forall f <- fs :: Valid(f.val)) && Delimited(rest)
    ensures Lex(CompactFields(fs) + rest) == Prepend(FieldTokens(fs), Lex(rest))
    decreases fs, 1
  {
    hide Lex, AtomLength, Unquote, Prepend, Compact, Tokens, Valid, Quote;
    if fs == [] {
      PrependNothing(Lex(rest));
      assert CompactFields(fs) + rest == rest;
    } else {
      var more := |fs| > 1;
      var sep := if more then "," else "";
      var comma: seq<Token> := if more then [Comma] else [];
      var tail := CompactFields(fs[1..]) + rest;
      var val := Compact(fs[0].val) + (sep + tail);
      assert CompactFields(fs) + rest == Quote(fs[0].key) + (":" + val);
      assert !more ==> sep + tail == rest;
      LexKey(fs[0].key, ":", val);
      LexCompact(fs[0].val, sep + tail);
      LexSeparator(more, false, tail);
      LexCompactFields(fs[1..], rest);
      FieldTokensJoin(fs, comma, Lex(rest));
    }
  }

  // ---- reading values ----

  datatype Parsed = Parsed(v: Json, rest: seq<Token>)

  predicate HasKey(fs: seq<Field>, key: string) {
    exists f <- fs :: f.key == key
  }

  function Find(fs: seq<Field>, key: string): (r: Option<Json>)
    ensures r.Some? <==> HasKey(fs, key)
    ensures r.Some? ==> Field(key, r.value) in fs
  {
    if fs == [] then None else if fs[0].key == key then Some(fs[0].val) else Find(fs[1..], key)
  }

  // Replaces the value of a key in place, or appends the key.
  function Put(fs: seq<Field>, key: string, v: Json): seq<Field> {
    if fs == [] then [Field(key, v)]
    else if fs[0].key == key then [Field(key, v)] + fs[1..]
    else [fs[0]] + Put(fs[1..], key, v)
  }

  predicate IntText(t: string) {
    var d := if t != "" && t[0] == '-' then t[1..] else t;
    d != "" && Decimal.AllDigits(d) && (|d| == 1 || d[0] != '0')
  }

  function AtomValue(t: string): Option<Json> {
    if t == "null" then Some(Null)
    else if t == "true" then Some(Bool(true))
    else if t == "false" then Some(Bool(false))
    else if IntText(t) then
      var n: int := if t[0] == '-' then -(Decimal.Value(t[1..]) as int) else Decimal.Value(t);
      if MIN_INT <= n <= MAX_UINT then Some(Int(n)) else Some(Real(t))
    else if RealText(t) then Some(Real(t))
    else None
  }

  // Sections 3 to 5 of RFC 8259, with the trailing commas that the loader allows; depth limits the nesting.
  function ParseValue(ts: seq<Token>, depth: nat): (r: Option<Parsed>)
    ensures r.Some? ==> |r.value.rest| < |ts|
    decreases |ts|, 0
  {
    if ts == [] then None else
    match ts[0]
    case Text(s) => Some(Parsed(Str(s), ts[1..]))
    case Atom(t) => (match AtomValue(t) case Some(v) => Some(Parsed(v, ts[1..])) case None => None)
    case LBracket =>
      if depth == 0 then None
      else if |ts| > 1 && ts[1] == RBracket then Some(Parsed(Arr([]), ts[2..]))
      else ParseElems(ts[1..], depth - 1, [])
    case LBrace =>
      if depth == 0 then None
      else if |ts| > 1 && ts[1] == RBrace then Some(Parsed(Obj([]), ts[2..]))
      else ParseFields(ts[1..], depth - 1, [])
    case _ => None
  }

  function ParseElems(ts: seq<Token>, depth: nat, acc: seq<Json>): (r: Option<Parsed>)
    ensures r.Some? ==> |r.value.rest| < |ts|
    decreases |ts|, 1
  {
    match ParseValue(ts, depth)
    case None => None
    case Some(p) =>
      var es := acc + [p.v];
      if p.rest == [] then None
      else if p.rest[0] == RBracket then Some(Parsed(Arr(es), p.rest[1..]))
      else if p.rest[0] != Comma then None
      else if |p.rest| > 1 && p.rest[1] == RBracket then Some(Parsed(Arr(es), p.rest[2..]))
      else ParseElems(p.rest[1..], depth, es)
  }

  function ParseFields(ts: seq<Token>, depth: nat, acc: seq<Field>): (r: Option<Parsed>)
    ensures r.Some? ==> |r.value.rest| < |ts|
    decreases |ts|, 1
  {
    if |ts| < 2 || !ts[0].Text? || ts[1] != Colon then None else
    match ParseValue(ts[2..], depth)
    case None => None
    case Some(p) =>
      var fs := Put(acc, ts[0].s, p.v);
      if p.rest == [] then None
      else if p.rest[0] == RBrace then Some(Parsed(Obj(fs), p.rest[1..]))
      else if p.rest[0] != Comma then None
      else if |p.rest| > 1 && p.rest[1] == RBrace then Some(Parsed(Obj(fs), p.rest[2..]))
      else ParseFields(p.rest[1..], depth, fs)
  }

  // boost::json::parse: one value and nothing after it.
  function Parse(s: string, depth: nat): Option<Json> {
    match Lex(s)
    case None => None
    case Some(ts) =>
      match ParseValue(ts, depth)
      case Some(p) => if p.rest == [] then Some(p.v) else None
      case None => None
  }

  function Depth(v: Json): nat {
    match v
    case Arr(es) => 1 + ElemsDepth(es)
    case Obj(fs) => 1 + FieldsDepth(fs)
    case _ => 0
  }

  function ElemsDepth(es: seq<Json>): nat {
    if es == [] then 0 else var r := ElemsDepth(es[1..]); if Depth(es[0]) > r then Depth(es[0]) else r
  }

  function FieldsDepth(fs: seq<Field>): nat {
    if fs == [] then 0 else var r := FieldsDepth(fs[1..]); if Depth(fs[0].val) > r then Depth(fs[0].val) else r
  }

  lemma {:induction false} NoLeadingZero(n: nat)
    requires n > 0
    ensures Decimal.Digits(n)[0] != '0'
  {
    if n >= 10 { NoLeadingZero(n / 10); }
  }

  // An integer outside the two 64-bit ranges is read as a real number.
  lemma ReadNumber(n: int)
    ensures AtomValue(Number(n)) ==
      if -0x8000_0000_0000_0000 <= n <= 0xFFFF_FFFF_FFFF_FFFF then Some(Int(n)) else Some(Real(Number(n)))
  {
    hide Decimal.Digits, RealText;
    var m: nat := if n < 0 then -n else n;
    var t := Number(n);
    Decimal.ValueOfDigits(m);
    if m > 0 { NoLeadingZero(m); } else { assert Decimal.Digits(0) == "0" by { OneDigit(); } }
    var d := Decimal.Digits(m);
    if n < 0 { assert t[1..] == d; }
    assert d[0] in d && Decimal.IsDigit(d[0]);
    assert t[0] == '-' || Decimal.IsDigit(t[0]);
    assert IntText(t);
  }

  lemma OneDigit()
    ensures Decimal.Digits(0) == "0"
  {
  }

  lemma ReadScalar(v: Json)
    requires Valid(v) && !v.Arr? && !v.Obj? && !v.Str?
    ensures AtomValue(ScalarText(v)) == Some(v)
  {
    match v
    case Int(n) => ReadNumber(n);
    case Real(t) => NotIntText(t);
    case Null =>
    case Bool(b) =>
  }

  lemma NotIntText(t: string)
    requires RealText(t)
    ensures !IntText(t)
  {
    var c :| c in t && (c == '.' || c == 'e' || c == 'E');
    var d := if t[0] == '-' then t[1..] else t;
    assert c in d by {
      var i :| 0 <= i < |t| && t[i] == c;
      assert t[0] == '-' ==> t[1..][i - 1] == c;
    }
  }

  lemma TokensStart(v: Json)
    ensures Tokens(v) != []
    ensures Tokens(v)[0].LBrace? || Tokens(v)[0].LBracket? || Tokens(v)[0].Text? || Tokens(v)[0].Atom?
  {
  }

  lemma {:induction false} PutNew(fs: seq<Field>, key: string, v: Json)
    requires !HasKey(fs, key)
    ensures Put(fs, key, v) == fs + [Field(key, v)]
  {
    if fs != [] { PutNew(fs[1..], key, v); }
  }

  lemma ParseTokens(v: Json, depth: nat, rest: seq<Token>)
    requires Valid(v)
    ensures ParseValue(Tokens(v) + rest, depth) == if Depth(v) <= depth then Some(Parsed(v, rest)) else None
    decreases v, 0
  {
    hide Tokens, ParseValue, Depth;
    match v
    case Arr(es) => ParseArrTokens(es, depth, rest);
    case Obj(fs) => ParseObjTokens(fs, depth, rest);
    case _ => ParseScalar(v, depth, rest);
  }

  lemma ParseScalar(v: Json, depth: nat, rest: seq<Token>)
    requires Valid(v) && !v.Arr? && !v.Obj?
    ensures ParseValue(Tokens(v) + rest, depth) == if Depth(v) <= depth then Some(Parsed(v, rest)) else None
  {
    hide AtomValue, ScalarText, Valid;
    var ts := Tokens(v) + rest;
    assert ts[1..] == rest && ts[0] == ScalarToken(v);
    if !v.Str? { ReadScalar(v); }
  }

  lemma ParseArrTokens(es: seq<Json>, depth: nat, rest: seq<Token>)
    requires Valid(Arr(es))
    ensures ParseValue(Tokens(Arr(es)) + rest, depth)
         == if Depth(Arr(es)) <= depth then Some(Parsed(Arr(es), rest)) else None
    decreases es, 2
  {
    var ts := Tokens(Arr(es)) + rest;
    if es == [] {
      assert ts == [LBracket, RBracket] + rest;
    } else {
      assert ts[1..] == ElemTokens(es) + [RBracket] + rest;
      TokensStart(es[0]);
      if depth > 0 { ParseElemTokens(es, depth - 1, [], rest); assert [] + es == es; }
    }
  }

  lemma ParseObjTokens(fs: seq<Field>, depth: nat, rest: seq<Token>)
    requires Valid(Obj(fs))
    ensures ParseValue(Tokens(Obj(fs)) + rest, depth)
         == if Depth(Obj(fs)) <= depth then Some(Parsed(Obj(fs), rest)) else None
    decreases fs, 2
  {
    var ts := Tokens(Obj(fs)) + rest;
    if fs == [] {
      assert ts == [LBrace, RBrace] + rest;
    } else {
      assert ts[1..] == FieldTokens(fs) + [RBrace] + rest;
      if depth > 0 { ParseFieldTokens(fs, depth - 1, [], rest); assert [] + fs == fs; }
    }
  }

  function ElemTail(es: seq<Json>, rest: seq<Token>): seq<Token>
    requires es != []
  {
    if |es| > 1 then [Comma] + (ElemTokens(es[1..]) + [RBracket] + rest) else [RBracket] + rest
  }

  lemma ElemSplit(es: seq<Json>, rest: seq<Token>)
    requires es != []
    ensures ElemTokens(es) + [RBracket] + rest == Tokens(es[0]) + ElemTail(es, rest)
    ensures |es| > 1 ==> ElemTail(es, rest)[1..] == ElemTokens(es[1..]) + [RBracket] + rest
    ensures |es| > 1 ==> ElemTail(es, rest)[1] != RBracket
  {
    hide Tokens;
    var comma := if |es| > 1 then [Comma] else [];
    Regroup5(Tokens(es[0]), comma, ElemTokens(es[1..]), [RBracket], rest);
    if |es| > 1 {
      TokensStart(es[1]);
    } else {
      assert ElemTail(es, rest) == comma + (ElemTokens(es[1..]) + [RBracket] + rest);
    }
  }

  lemma ParseElemTokens(es: seq<Json>, depth: nat, acc: seq<Json>, rest: seq<Token>)
    requires es != [] && forall e <- es :: Valid(e)
    ensures ParseElems(ElemTokens(es) + [RBracket] + rest, depth, acc)
         == if ElemsDepth(es) <= depth then Some(Parsed(Arr(acc + es), rest)) else None
    decreases es, 1
  {
    hide Tokens, ElemTokens;
    ElemSplit(es, rest);
    var tail := ElemTail(es, rest);
    ParseTokens(es[0], depth, tail);
    if |es| > 1 {
      ParseElemTokens(es[1..], depth, acc + [es[0]], rest);
      assert acc + [es[0]] + es[1..] == acc + es;
    } else {
      assert tail[1..] == rest;
      assert acc + [es[0]] == acc + es;
    }
  }

  function FieldTail(fs: seq<Field>, rest: seq<Token>): seq<Token>
    requires fs != []
  {
    if |fs| > 1 then [Comma] + (FieldTokens(fs[1..]) + [RBrace] + rest) else [RBrace] + rest
  }

  lemma DropPair<T>(x: T, y: T, t: seq<T>, u: seq<T>)
    ensures var ts := [x, y] + t + u; |ts| >= 2 && ts[0] == x && ts[1] == y && ts[2..] == t + u
  {
    assert [x, y] + t + u == [x, y] + (t + u);
  }

  lemma FieldTailAlternative(fs: seq<Field>, rest: seq<Token>)
    requires fs != []
    ensures FieldTail(fs, rest) == (if |fs| > 1 then [Comma] else []) + (FieldTokens(fs[1..]) + [RBrace] + rest)
  {
  }

  lemma FieldSplit(fs: seq<Field>, rest: seq<Token>)
    requires fs != []
    ensures var ts := FieldTokens(fs) + [RBrace] + rest;
      |ts| >= 2 && ts[0] == Text(fs[0].key) && ts[1] == Colon && ts[2..] == Tokens(fs[0].val) + FieldTail(fs, rest)
  {
    hide Tokens, FieldTail;
    var comma := if |fs| > 1 then [Comma] else [];
    var head := [Text(fs[0].key), Colon] + Tokens(fs[0].val);
    Regroup5(head, comma, FieldTokens(fs[1..]), [RBrace], rest);
    FieldTailAlternative(fs, rest);
    DropPair(Text(fs[0].key), Colon, Tokens(fs[0].val), FieldTail(fs, rest));
  }

  lemma FreshKey(acc: seq<Field>, fs: seq<Field>)
    requires fs != [] && DistinctKeys(acc + fs)
    ensures Put(acc, fs[0].key, fs[0].val) == acc + [fs[0]]
    ensures acc + [fs[0]] + fs[1..] == acc + fs
  {
    forall i | 0 <= i < |acc| ensures acc[i].key != fs[0].key { assert (acc + fs)[i].key != (acc + fs)[|acc|].key; }
    PutNew(acc, fs[0].key, fs[0].val);
  }

  lemma ParseFieldTokens(fs: seq<Field>, depth: nat, acc: seq<Field>, rest: seq<Token>)
    requires fs != [] && (forall f <- fs :: Valid(f.val)) && DistinctKeys(acc + fs)
    ensures ParseFields(FieldTokens(fs) + [RBrace] + rest, depth, acc)
         == if FieldsDepth(fs) <= depth then Some(Parsed(Obj(acc + fs), rest)) else None
    decreases fs, 1
  {
    hide Tokens, FieldTokens, DistinctKeys, Put;
    FieldSplit(fs, rest);
    var tail := FieldTail(fs, rest);
    ParseTokens(fs[0].val, depth, tail);
    FreshKey(acc, fs);
    if |fs| > 1 {
      FieldSplit(fs[1..], rest);
      assert tail[1..] == FieldTokens(fs[1..]) + [RBrace] + rest;
      ParseFieldTokens(fs[1..], depth, acc + [fs[0]], rest);
    } else {
      assert tail[1..] == rest;
      assert fs[1..] == [];
      assert acc + [fs[0]] == acc + fs;
    }
  }

  // Configuration::prettyPrint
  function PrettyPrint(v: Json): string {
    Pretty(v, 0) + "\n"
  }

  lemma SameTokens(v: Json)
    requires Valid(v)
    ensures Lex(PrettyPrint(v)) == Lex(Compact(v)) == Some(Tokens(v))
  {
    LexPretty(v, 0, "\n");
    LexCompact(v, "");
    assert Compact(v) + "" == Compact(v);
    LexSpaces("\n", "");
    assert "\n" + "" == "\n";
    assert Lex("") == Some([]);
    assert Tokens(v) + [] == Tokens(v);
  }

  // What is written is read back, and nothing else is, exactly when the nesting is within the limit of the reader.
  lemma PrettyPrintRoundTrip(v: Json, depth: nat)
    requires Valid(v)
    ensures Parse(PrettyPrint(v), depth) == if Depth(v) <= depth then Some(v) else None
    ensures Parse(Compact(v), depth) == Parse(PrettyPrint(v), depth)
  {
    SameTokens(v);
    ParseTokens(v, depth, []);
    assert Tokens(v) + [] == Tokens(v);
  }
}
