// The two texts of a JSON value, told line by line and token by token, and what the reader takes beyond them.
module JsonForms {
  import opened Characters
  import opened JsonText
  import opened Sequences
  import opened Wrappers
  import Decimal

  // ---- the pretty text as lines ----

  datatype Line = Line(depth: nat, text: string)

  // Two spaces for each level of nesting.
  function Render(lines: seq<Line>): string {
    if lines == [] then ""
    else seq(2 * lines[0].depth, _ => ' ') + (lines[0].text + "\n") + Render(lines[1..])
  }

  // The lines of a value with a text in front of the first and behind the last one. Empty arrays and objects take one
  // line. Others have their brackets on lines of their own and what they hold one level deeper, with a comma behind all
  // but the last.
  function Layout(v: Json, depth: nat, prefix: string, suffix: string): seq<Line>
    decreases v
  {
    match v
    case Arr(es) =>
      if es == [] then [Line(depth, prefix + "[]" + suffix)]
      else [Line(depth, prefix + "[")] + ElemLayout(es, depth + 1) + [Line(depth, "]" + suffix)]
    case Obj(fs) =>
      if fs == [] then [Line(depth, prefix + "{}" + suffix)]
      else [Line(depth, prefix + "{")] + FieldLayout(fs, depth + 1) + [Line(depth, "}" + suffix)]
    case _ => [Line(depth, prefix + ScalarText(v) + suffix)]
  }

  function ElemLayout(es: seq<Json>, depth: nat): seq<Line>
    decreases es
  {
    if es == [] then [] else Layout(es[0], depth, "", if |es| > 1 then "," else "") + ElemLayout(es[1..], depth)
  }

  function FieldLayout(fs: seq<Field>, depth: nat): seq<Line>
    decreases fs
  {
    if fs == [] then []
    else
      Layout(fs[0].val, depth, Quote(fs[0].key) + ": ", if |fs| > 1 then "," else "") + FieldLayout(fs[1..], depth)
  }

  lemma {:induction false} RenderConcat(a: seq<Line>, b: seq<Line>)
    ensures Render(a + b) == Render(a) + Render(b)
  {
    if a == [] {
      assert a + b == b;
    } else {
      RenderConcat(a[1..], b);
      assert (a + b)[1..] == a[1..] + b;
      Regroup(seq(2 * a[0].depth, _ => ' ') + (a[0].text + "\n"), Render(a[1..]), Render(b));
    }
  }

  lemma RenderOne(depth: nat, text: string)
    ensures Render([Line(depth, text)]) == Pad(depth) + text + "\n"
  {
    var l := Line(depth, text);
    assert [l][1..] == [];
    assert Pad(depth) == seq(2 * depth, _ => ' ');
    assert Pad(depth) + (text + "\n") + "" == Pad(depth) + text + "\n";
  }

  lemma RenderBrackets(depth: nat, open: string, lines: seq<Line>, close: string)
    ensures Render([Line(depth, open)] + lines + [Line(depth, close)])
         == Pad(depth) + open + "\n" + Render(lines) + Pad(depth) + close + "\n"
  {
    RenderOne(depth, open);
    RenderOne(depth, close);
    RenderConcat([Line(depth, open)] + lines, [Line(depth, close)]);
    RenderConcat([Line(depth, open)], lines);
    Regroup4(Pad(depth) + open + "\n" + Render(lines), Pad(depth), close, "\n");
  }

  // The written text is its lines, at any depth and with anything around it.
  lemma {:induction false} PrettyIsLayout(v: Json, depth: nat, prefix: string, suffix: string)
    ensures Render(Layout(v, depth, prefix, suffix)) == Pad(depth) + prefix + Pretty(v, depth) + suffix + "\n"
    decreases v, 0
  {
    match v
    case Arr(es) => ArrIsLayout(es, depth, prefix, suffix);
    case Obj(fs) => ObjIsLayout(fs, depth, prefix, suffix);
    case _ =>
      hide Render, Pad, ScalarText;
      RenderOne(depth, prefix + ScalarText(v) + suffix);
      Around(Pad(depth), prefix, ScalarText(v), suffix);
  }

  lemma {:induction false} ArrIsLayout(es: seq<Json>, depth: nat, prefix: string, suffix: string)
    ensures var v := Arr(es);
      Render(Layout(v, depth, prefix, suffix)) == Pad(depth) + prefix + Pretty(v, depth) + suffix + "\n"
    decreases es, 2
  {
    hide Render, Pad, ElemLayout, PrettyElems;
    if es == [] {
      RenderOne(depth, prefix + "[]" + suffix);
      Around(Pad(depth), prefix, "[]", suffix);
    } else {
      RenderBrackets(depth, prefix + "[", ElemLayout(es, depth + 1), "]" + suffix);
      ElemsAreLayout(es, depth + 1);
      Bracketed(Pad(depth), prefix, "[", PrettyElems(es, depth + 1), "]", suffix);
    }
  }

  lemma {:induction false} ObjIsLayout(fs: seq<Field>, depth: nat, prefix: string, suffix: string)
    ensures var v := Obj(fs);
      Render(Layout(v, depth, prefix, suffix)) == Pad(depth) + prefix + Pretty(v, depth) + suffix + "\n"
    decreases fs, 2
  {
    hide Render, Pad, FieldLayout, PrettyFields;
    if fs == [] {
      RenderOne(depth, prefix + "{}" + suffix);
      Around(Pad(depth), prefix, "{}", suffix);
    } else {
      RenderBrackets(depth, prefix + "{", FieldLayout(fs, depth + 1), "}" + suffix);
      FieldsAreLayout(fs, depth + 1);
      Bracketed(Pad(depth), prefix, "{", PrettyFields(fs, depth + 1), "}", suffix);
    }
  }

  lemma Around(pad: string, prefix: string, text: string, suffix: string)
    ensures pad + (prefix + text + suffix) + "\n" == pad + prefix + text + suffix + "\n"
  {
  }

  lemma Bracketed(pad: string, prefix: string, open: string, inner: string, close: string, suffix: string)
    ensures pad + (prefix + open) + "\n" + inner + pad + (close + suffix) + "\n"
         == pad + prefix + (open + "\n" + inner + pad + close) + suffix + "\n"
  {
    var a, b := pad + prefix, inner + pad;
    assert pad + (prefix + open) == a + open;
    assert a + open + "\n" + inner + pad + (close + suffix) == a + (open + "\n" + inner + pad + close) + suffix;
  }

  lemma {:induction false} ElemsAreLayout(es: seq<Json>, depth: nat)
    ensures Render(ElemLayout(es, depth)) == PrettyElems(es, depth)
    decreases es, 1
  {
    hide Pad, Layout, Pretty;
    if es != [] {
      var comma := if |es| > 1 then "," else "";
      var first := Layout(es[0], depth, "", comma);
      PrettyIsLayout(es[0], depth, "", comma);
      ElemsAreLayout(es[1..], depth);
      RenderConcat(first, ElemLayout(es[1..], depth));
      assert Pad(depth) + "" + Pretty(es[0], depth) + comma + "\n"
          == Pad(depth) + Pretty(es[0], depth) + (comma + "\n");
      assert comma + "\n" == if |es| > 1 then ",\n" else "\n";
    }
  }

  lemma {:induction false} FieldsAreLayout(fs: seq<Field>, depth: nat)
    ensures Render(FieldLayout(fs, depth)) == PrettyFields(fs, depth)
    decreases fs, 1
  {
    hide Pad, Layout, Pretty, Quote;
    if fs != [] {
      var comma, key, val := if |fs| > 1 then "," else "", Quote(fs[0].key), Pretty(fs[0].val, depth);
      var first := Layout(fs[0].val, depth, key + ": ", comma);
      PrettyIsLayout(fs[0].val, depth, key + ": ", comma);
      FieldsAreLayout(fs[1..], depth);
      RenderConcat(first, FieldLayout(fs[1..], depth));
      assert Pad(depth) + (key + ": ") + val + comma + "\n" == Pad(depth) + key + ": " + val + (comma + "\n");
      assert comma + "\n" == if |fs| > 1 then ",\n" else "\n";
    }
  }

  // What is saved, line by line.
  lemma PrettyPrintIsLayout(v: Json)
    ensures PrettyPrint(v) == Render(Layout(v, 0, "", ""))
  {
    PrettyIsLayout(v, 0, "", "");
    assert Pad(0) + "" + Pretty(v, 0) + "" == Pretty(v, 0);
  }

  // ---- the compact text as tokens ----

  function Spelled(t: Token): string {
    match t
    case LBrace => "{"
    case RBrace => "}"
    case LBracket => "["
    case RBracket => "]"
    case Comma => ","
    case Colon => ":"
    case Text(s) => Quote(s)
    case Atom(text) => text
  }

  function SpelledAll(ts: seq<Token>): string {
    if ts == [] then "" else Spelled(ts[0]) + SpelledAll(ts[1..])
  }

  lemma {:induction false} SpelledConcat(a: seq<Token>, b: seq<Token>)
    ensures SpelledAll(a + b) == SpelledAll(a) + SpelledAll(b)
  {
    if a == [] {
      assert a + b == b;
    } else {
      SpelledConcat(a[1..], b);
      assert (a + b)[1..] == a[1..] + b;
    }
  }

  lemma SpelledOne(t: Token)
    ensures SpelledAll([t]) == Spelled(t)
  {
    assert [t][1..] == [];
  }

  // Nothing stands between the tokens.
  lemma {:induction false} CompactIsTokens(v: Json)
    ensures Compact(v) == SpelledAll(Tokens(v))
    decreases v, 0
  {
    match v
    case Arr(es) =>
      ElemsAreTokens(es);
      BracketedTokens(LBracket, ElemTokens(es), RBracket);
    case Obj(fs) =>
      FieldsAreTokens(fs);
      BracketedTokens(LBrace, FieldTokens(fs), RBrace);
    case _ => SpelledOne(ScalarToken(v));
  }

  lemma BracketedTokens(open: Token, ts: seq<Token>, close: Token)
    ensures SpelledAll([open] + ts + [close]) == Spelled(open) + SpelledAll(ts) + Spelled(close)
  {
    hide Spelled, SpelledAll;
    SpelledOne(open);
    SpelledOne(close);
    SpelledConcat([open] + ts, [close]);
    SpelledConcat([open], ts);
  }

  lemma {:induction false} ElemsAreTokens(es: seq<Json>)
    ensures CompactElems(es) == SpelledAll(ElemTokens(es))
    decreases es, 1
  {
    hide Compact, Tokens;
    if es != [] {
      var comma := if |es| > 1 then [Comma] else [];
      CompactIsTokens(es[0]);
      ElemsAreTokens(es[1..]);
      SpelledConcat(Tokens(es[0]) + comma, ElemTokens(es[1..]));
      SpelledConcat(Tokens(es[0]), comma);
      SpelledOne(Comma);
    }
  }

  lemma {:induction false} FieldsAreTokens(fs: seq<Field>)
    ensures CompactFields(fs) == SpelledAll(FieldTokens(fs))
    decreases fs, 1
  {
    hide Compact, Tokens, Quote;
    if fs != [] {
      var key, comma := [Text(fs[0].key), Colon], if |fs| > 1 then [Comma] else [];
      var val := Tokens(fs[0].val);
      CompactIsTokens(fs[0].val);
      FieldsAreTokens(fs[1..]);
      SpelledConcat(key + val + comma, FieldTokens(fs[1..]));
      SpelledConcat(key + val, comma);
      SpelledConcat(key, val);
      SpelledOne(Comma);
      SpelledOne(Colon);
      assert key[1..] == [Colon];
    }
  }

  // ---- escapes ----

  // Quotes, backslashes and control characters are escaped, the latter with a letter or four lower-case digits.
  lemma EscapeForms(c: char)
    ensures EscapeChar(c) == [c] <==> c as int >= 32 && c != '"' && c != '\\'
    ensures c as int >= 32 || c == '\n' || c == '\r' || c == '\t' || c as int in {8, 12} ==> |EscapeChar(c)| <= 2
    ensures c as int < 32 && c != '\n' && c != '\r' && c != '\t' && c as int !in {8, 12} ==>
      var d := "0123456789abcdef"; EscapeChar(c) == "\\u00" + [d[c as int / 16], d[c as int % 16]]
  {
    if c as int < 32 {
      HexDigits(c as int / 16);
      HexDigits(c as int % 16);
    }
  }

  // Escapes that are read though they are never written: a slash, and four digits of either case.
  lemma OtherEscapes(a: nat, b: nat, c: nat, d: nat, t: string)
    requires a < 16 && b < 16 && c < 16 && d < 16
    ensures Unquote("\\/" + t) == Cons('/', Unquote(t))
    ensures var n := 4096 * a + 256 * b + 16 * c + d;
      CodePoint([HexLower(a), HexUpper(b), HexLower(c), HexUpper(d)])
        == if 0xD800 <= n < 0xE000 then None else Some(n as char)
  {
    assert ("\\/" + t)[2..] == t;
    HexDigits(a);
    HexDigits(b);
    HexDigits(c);
    HexDigits(d);
  }

  // ---- white space, comments and trailing commas ----

  lemma WhiteSpaceIsNothing(w: string, rest: string)
    requires forall c <- w :: c == ' ' || c == '\t' || c == '\n' || c == '\r'
    ensures Lex(w + rest) == Lex(rest)
  {
    LexSpaces(w, rest);
  }

  // A comment is read as nothing: two slashes up to the end of the line, and slash and star up to the first end of it.
  lemma {:induction false} LineCommentIsNothing(text: string, rest: string)
    requires '\n' !in text
    ensures Lex("//" + text + "\n" + rest) == Lex(rest)
    ensures Lex("//" + text) == Some([])
  {
    var s, t := "//" + text + "\n" + rest, "//" + text;
    assert s[2..] == text + "\n" + rest && t[2..] == text;
    LineEnds(text, rest);
  }

  lemma {:induction false} LineEnds(text: string, rest: string)
    requires '\n' !in text
    ensures AfterLine(text + "\n" + rest) == rest && AfterLine(text) == ""
  {
    var s := text + "\n" + rest;
    if text == "" {
      assert s == "\n" + rest && s[1..] == rest;
    } else {
      assert s[1..] == text[1..] + "\n" + rest;
      LineEnds(text[1..], rest);
    }
  }

  lemma BlockCommentIsNothing(text: string, rest: string)
    requires forall i | 0 <= i < |text| - 1 :: !(text[i] == '*' && text[i + 1] == '/')
    ensures Lex("/*" + text + "*/" + rest) == Lex(rest)
    ensures Lex("/*" + text) == None
  {
    var s, t := "/*" + text + "*/" + rest, "/*" + text;
    assert s[2..] == text + "*/" + rest && t[2..] == text;
    BlockEnds(text, rest);
  }

  lemma {:induction false} BlockEnds(text: string, rest: string)
    requires forall i | 0 <= i < |text| - 1 :: !(text[i] == '*' && text[i + 1] == '/')
    ensures AfterBlock(text + "*/" + rest) == Some(rest) && AfterBlock(text) == None
  {
    var s := text + "*/" + rest;
    if text == "" {
      assert s == "*/" + rest && s[2..] == rest;
    } else {
      assert s[1..] == text[1..] + "*/" + rest;
      forall i | 0 <= i < |text[1..]| - 1 ensures !(text[1..][i] == '*' && text[1..][i + 1] == '/') {
        assert text[i + 1] == text[1..][i] && text[i + 2] == text[1..][i + 1];
      }
      BlockEnds(text[1..], rest);
      assert s[1] == if |text| > 1 then text[1] else '*';
    }
  }

  // One comma behind the last element or field is taken.
  lemma {:induction false} CommaAfterElems(es: seq<Json>, depth: nat, acc: seq<Json>, rest: seq<Token>)
    requires es != [] && forall e <- es :: Valid(e)
    ensures ParseElems(ElemTokens(es) + ([Comma, RBracket] + rest), depth, acc)
         == if ElemsDepth(es) <= depth then Some(Parsed(Arr(acc + es), rest)) else None
    decreases |es|
  {
    hide Tokens, ParseValue, Valid, Depth;
    var end := [Comma, RBracket] + rest;
    var more := ElemTokens(es[1..]) + end;
    var tail := if |es| > 1 then [Comma] + more else end;
    ParseTokens(es[0], depth, tail);
    if |es| > 1 {
      TokensStart(es[1]);
      Regroup4(Tokens(es[0]), [Comma], ElemTokens(es[1..]), end);
      assert tail[1..] == more && tail[1] == Tokens(es[1])[0];
      CommaAfterElems(es[1..], depth, acc + [es[0]], rest);
      assert acc + [es[0]] + es[1..] == acc + es;
    } else {
      assert es[1..] == [] && Tokens(es[0]) + [] + [] + end == Tokens(es[0]) + end;
      assert tail[2..] == rest && acc + [es[0]] == acc + es;
    }
  }

  lemma {:induction false} CommaAfterFields(fs: seq<Field>, depth: nat, acc: seq<Field>, rest: seq<Token>)
    requires fs != [] && (forall f <- fs :: Valid(f.val)) && DistinctKeys(acc + fs)
    ensures ParseFields(FieldTokens(fs) + ([Comma, RBrace] + rest), depth, acc)
         == if FieldsDepth(fs) <= depth then Some(Parsed(Obj(acc + fs), rest)) else None
    decreases |fs|
  {
    hide Tokens, ParseValue, Valid, Depth, Put, DistinctKeys;
    var end := [Comma, RBrace] + rest;
    var more := FieldTokens(fs[1..]) + end;
    var tail := if |fs| > 1 then [Comma] + more else end;
    var key, val := [Text(fs[0].key), Colon], Tokens(fs[0].val);
    ParseTokens(fs[0].val, depth, tail);
    FreshKey(acc, fs);
    DropPair(Text(fs[0].key), Colon, val, tail);
    if |fs| > 1 {
      Regroup4(key + val, [Comma], FieldTokens(fs[1..]), end);
      assert tail[1..] == more && tail[1] == Text(fs[1].key);
      CommaAfterFields(fs[1..], depth, acc + [fs[0]], rest);
    } else {
      assert fs[1..] == [] && key + val + [] + [] + end == key + val + end;
      assert tail[2..] == rest && acc + [fs[0]] == acc + fs;
    }
  }
}
