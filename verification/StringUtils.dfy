// Percent-encoding, splitting, joining and trimming of byte strings.
module StringUtils {
  import opened Bytes
  import opened Characters
  import opened Wrappers

  predicate Alphanumeric(c: Byte) {
    'A' <= c <= 'Z' || 'a' <= c <= 'z' || '0' <= c <= '9'
  }

  function TrimRight(s: Bytes): Bytes {
    if s == "" || !Space(s[|s| - 1]) then s else TrimRight(s[..|s| - 1])
  }

  function TrimLeft(s: Bytes): Bytes {
    if s == "" || !Space(s[0]) then s else TrimLeft(s[1..])
  }

  // What is cut off is white space, and what is left does not end, or begin, with any.
  lemma {:induction false} TrimRightShape(s: Bytes)
    ensures var r := TrimRight(s);
      && r <= s && (r != "" ==> !Space(r[|r| - 1]))
      && forall i | |r| <= i < |s| :: Space(s[i])
  {
    if s != "" { TrimRightShape(s[..|s| - 1]); }
  }

  lemma {:induction false} TrimLeftShape(s: Bytes)
    ensures var r := TrimLeft(s);
      && |r| <= |s| && r == s[|s| - |r|..] && (r != "" ==> !Space(r[0]))
      && forall i | 0 <= i < |s| - |r| :: Space(s[i])
  {
    if s != "" && Space(s[0]) {
      TrimLeftShape(s[1..]);
      forall i | 0 <= i < |s| - |TrimLeft(s)| ensures Space(s[i]) {
        if i > 0 { assert s[i] == s[1..][i - 1]; }
      }
    }
  }

  lemma {:induction false} TrimRightOf(s: Bytes, spaces: Bytes)
    requires s != "" && !Space(s[|s| - 1]) && forall c <- spaces :: Space(c)
    ensures TrimRight(s + spaces) == s
  {
    if spaces == "" {
      assert s + spaces == s;
    } else {
      var t := spaces[..|spaces| - 1];
      assert (s + spaces)[..|s + spaces| - 1] == s + t;
      TrimRightOf(s, t);
    }
  }

  function LowerByte(c: Byte): Byte {
    if 'A' <= c <= 'Z' then (c as int + 32) as char else c
  }

  function ToLower(s: Bytes): Bytes {
    if s == "" then "" else [LowerByte(s[0])] + ToLower(s[1..])
  }

  const UPPER: Bytes := "ABCDEFGHIJKLMNOPQRSTUVWXYZ"
  const LOWER: Bytes := "abcdefghijklmnopqrstuvwxyz"
  const DIGITS: Bytes := "0123456789"

  predicate Upper(c: Byte) {
    'A' <= c <= 'Z'
  }

  // Only the letters from A to Z change.
  lemma {:induction false} ToLowerAt(s: Bytes)
    ensures |ToLower(s)| == |s|
    ensures forall i | 0 <= i < |s| :: ToLower(s)[i] == if Upper(s[i]) then LOWER[s[i] as int - 'A' as int] else s[i]
  {
    if s != "" {
      ToLowerAt(s[1..]);
      LowerTable(s[0]);
    }
  }

  lemma LowerTable(c: Byte)
    ensures LowerByte(c) == if Upper(c) then LOWER[c as int - 'A' as int] else c
  {
    assert forall i | 0 <= i < 26 :: LOWER[i] as int == 'a' as int + i;
  }

  // Section 2.3 of RFC 3986.
  predicate Unreserved(c: Byte) {
    Alphanumeric(c) || c == '-' || c == '.' || c == '_' || c == '~'
  }

  lemma InRun(c: Byte, run: Bytes, first: nat)
    requires forall i | 0 <= i < |run| :: run[i] as int == first + i
    ensures c in run <==> first <= c as int < first + |run|
  {
    if first <= c as int < first + |run| { assert run[c as int - first] == c; }
  }

  lemma CapitalRun(c: Byte)
    ensures c in UPPER <==> Upper(c)
  {
    InRun(c, UPPER, 'A' as int);
  }

  lemma SmallRun(c: Byte)
    ensures c in LOWER <==> 'a' <= c <= 'z'
  {
    InRun(c, LOWER, 'a' as int);
  }

  lemma DigitRun(c: Byte)
    ensures c in DIGITS <==> '0' <= c <= '9'
  {
    InRun(c, DIGITS, '0' as int);
  }

  lemma UnreservedTable(c: Byte)
    ensures Unreserved(c) <==> c in UPPER || c in LOWER || c in DIGITS || c in ['-', '.', '_', '~']
  {
    hide UPPER, LOWER, DIGITS;
    CapitalRun(c);
    SmallRun(c);
    DigitRun(c);
  }

  // A percent sign and the two upper-case hexadecimal digits of the byte, with a leading zero where it needs one.
  function Triplet(c: Byte): Bytes {
    ['%', HexUpper(c as int / 16), HexUpper(c as int % 16)]
  }

  function EncodeByte(c: Byte, encodeSlash: bool): Bytes {
    if Unreserved(c) then [c] else if c == '/' && !encodeSlash then "/" else Triplet(c)
  }

  function UrlEncoded(s: Bytes, encodeSlash: bool): Bytes {
    if s == "" then "" else EncodeByte(s[0], encodeSlash) + UrlEncoded(s[1..], encodeSlash)
  }

  lemma EncodedStep(s: Bytes, i: nat, encodeSlash: bool)
    requires i < |s|
    ensures UrlEncoded(s[i..], encodeSlash) == EncodeByte(s[i], encodeSlash) + UrlEncoded(s[i + 1..], encodeSlash)
  {
    assert s[i..][1..] == s[i + 1..];
  }

  method AwsUrlEncode(input: Bytes, encodeSlash: bool) returns (encoded: Bytes)
    ensures encoded == UrlEncoded(input, encodeSlash)
  {
    hide UrlEncoded;
    encoded := "";
    assert input[0..] == input;
    for i := 0 to |input|
      invariant encoded + UrlEncoded(input[i..], encodeSlash) == UrlEncoded(input, encodeSlash)
    {
      var c := input[i];
      EncodedStep(input, i, encodeSlash);
      assert encoded + (EncodeByte(c, encodeSlash) + UrlEncoded(input[i + 1..], encodeSlash))
          == encoded + EncodeByte(c, encodeSlash) + UrlEncoded(input[i + 1..], encodeSlash);
      if Unreserved(c) {
        encoded := encoded + [c];
      } else if c == '/' && !encodeSlash {
        encoded := encoded + "/";
      } else {
        encoded := encoded + Triplet(c);
      }
    }
    EncodedNothing(input[|input|..], encodeSlash);
  }

  lemma EncodedNothing(s: Bytes, encodeSlash: bool)
    requires s == ""
    ensures UrlEncoded(s, encodeSlash) == ""
  {
  }

  // boost::urls::decode_view with space_as_plus: a '%' that is not followed by two hexadecimal digits is an error.
  function UrlDecode(s: Bytes): (r: Option<Bytes>)
    decreases |s|
  {
    if s == "" then Some("")
    else if s[0] == '%' then
      if |s| >= 3 && HexValue(s[1]).Some? && HexValue(s[2]).Some? then
        Consed((16 * HexValue(s[1]).value + HexValue(s[2]).value) as char, UrlDecode(s[3..]))
      else None
    else Consed(if s[0] == '+' then ' ' else s[0], UrlDecode(s[1..]))
  }

  function Consed(c: Byte, r: Option<Bytes>): Option<Bytes> {
    if r.Some? then Some([c] + r.value) else None
  }

  function Joined(a: Option<Bytes>, b: Option<Bytes>): Option<Bytes> {
    if a.Some? && b.Some? then Some(a.value + b.value) else None
  }

  // The texts for one byte: itself, a plus for a space, or a percent sign and two digits of either case.
  predicate Spells(t: Bytes, c: Byte) {
    || (|t| == 1 && t[0] != '%' && t[0] != '+' && c == t[0])
    || (t == "+" && c == ' ')
    || (&& |t| == 3 && t[0] == '%'
        && t[1] in ["0123456789abcdef"[c as int / 16], "0123456789ABCDEF"[c as int / 16]]
        && t[2] in ["0123456789abcdef"[c as int % 16], "0123456789ABCDEF"[c as int % 16]])
  }

  predicate SpelledBy(t: Bytes, s: Bytes, pieces: seq<Bytes>) {
    |pieces| == |s| && Join(pieces, "") == t && forall i | 0 <= i < |s| :: Spells(pieces[i], s[i])
  }

  lemma DecodePiece(t: Bytes, c: Byte, rest: Bytes)
    requires Spells(t, c)
    ensures UrlDecode(t + rest) == Consed(c, UrlDecode(rest))
  {
    assert (t + rest)[|t|..] == rest;
    if |t| == 3 {
      HexDigits(c as int / 16);
      HexDigits(c as int % 16);
    }
  }

  lemma {:induction false} SpelledDecodes(t: Bytes, s: Bytes, pieces: seq<Bytes>)
    requires SpelledBy(t, s, pieces)
    ensures UrlDecode(t) == Some(s)
    decreases |s|
  {
    hide Spells;
    if s != "" {
      var rest := Join(pieces[1..], "");
      SpelledDecodes(rest, s[1..], pieces[1..]);
      DecodePiece(pieces[0], s[0], rest);
      assert t == pieces[0] + rest;
      assert s == [s[0]] + s[1..];
    }
  }

  function Pieces(t: Bytes): (r: seq<Bytes>)
    requires UrlDecode(t).Some?
    decreases |t|
  {
    if t == "" then [] else if t[0] == '%' then [t[..3]] + Pieces(t[3..]) else [t[..1]] + Pieces(t[1..])
  }

  lemma TripletSpells(t: Bytes)
    requires |t| == 3 && t[0] == '%' && HexValue(t[1]).Some? && HexValue(t[2]).Some?
    ensures Spells(t, (16 * HexValue(t[1]).value + HexValue(t[2]).value) as char)
  {
    hide HexValue;
    var h, l := HexValue(t[1]).value, HexValue(t[2]).value;
    DigitSpells(t[1]);
    DigitSpells(t[2]);
    assert (16 * h + l) / 16 == h && (16 * h + l) % 16 == l;
  }

  lemma DigitSpells(c: Byte)
    requires HexValue(c).Some?
    ensures var v := HexValue(c).value; c in ["0123456789abcdef"[v], "0123456789ABCDEF"[v]]
  {
    hide HexValue;
    HexDigits(HexValue(c).value);
    HexOnly(c);
  }

  lemma OneSpells(c: Byte)
    requires c != '%'
    ensures Spells([c], if c == '+' then ' ' else c)
  {
  }

  lemma SpelledCons(t: Bytes, c: Byte, rest: Bytes, s: Bytes, pieces: seq<Bytes>)
    requires Spells(t, c) && SpelledBy(rest, s, pieces)
    ensures SpelledBy(t + rest, [c] + s, [t] + pieces)
  {
    hide Spells;
    assert ([t] + pieces)[1..] == pieces;
    assert t + "" == t;
  }

  lemma {:induction false} DecodedIsSpelled(t: Bytes)
    requires UrlDecode(t).Some?
    ensures SpelledBy(t, UrlDecode(t).value, Pieces(t))
    decreases |t|
  {
    hide Spells, SpelledBy, HexValue;
    if t == "" {
      NothingSpelled();
    } else if t[0] == '%' {
      TripletSpells(t[..3]);
      DecodedIsSpelled(t[3..]);
      SpelledCons(t[..3], (16 * HexValue(t[1]).value + HexValue(t[2]).value) as char, t[3..], UrlDecode(t[3..]).value,
                  Pieces(t[3..]));
      assert t == t[..3] + t[3..];
    } else {
      OneSpells(t[0]);
      DecodedIsSpelled(t[1..]);
      assert t[..1] == [t[0]];
      SpelledCons(t[..1], if t[0] == '+' then ' ' else t[0], t[1..], UrlDecode(t[1..]).value, Pieces(t[1..]));
      assert t == t[..1] + t[1..];
    }
  }

  lemma NothingSpelled()
    ensures SpelledBy("", "", [])
  {
  }

  // Decoding gives exactly the bytes that the text spells, and fails on text that spells nothing.
  lemma DecodesWhatIsSpelled(t: Bytes, s: Bytes)
    ensures UrlDecode(t) == Some(s) <==> exists pieces :: SpelledBy(t, s, pieces)
  {
    hide SpelledBy, UrlDecode;
    if UrlDecode(t) == Some(s) { DecodedIsSpelled(t); }
    if pieces :| SpelledBy(t, s, pieces) { SpelledDecodes(t, s, pieces); }
  }

  lemma DecodeByte(c: Byte, encodeSlash: bool, rest: Bytes)
    ensures UrlDecode(EncodeByte(c, encodeSlash) + rest) == Consed(c, UrlDecode(rest))
  {
    var e := EncodeByte(c, encodeSlash);
    var s := e + rest;
    assert s[|e|..] == rest;
    if |e| == 3 {
      HexDigits(c as int / 16);
      HexDigits(c as int % 16);
    }
  }

  lemma JoinedConsed(c: Byte, s: Bytes, r: Option<Bytes>)
    ensures Consed(c, Joined(Some(s), r)) == Joined(Some([c] + s), r)
  {
    if r.Some? { assert [c] + (s + r.value) == [c] + s + r.value; }
  }

  lemma {:induction false} DecodeEncodedThen(s: Bytes, encodeSlash: bool, rest: Bytes)
    ensures UrlDecode(UrlEncoded(s, encodeSlash) + rest) == Joined(Some(s), UrlDecode(rest))
  {
    hide UrlDecode, EncodeByte;
    if s == "" {
      assert UrlEncoded(s, encodeSlash) + rest == rest;
      if UrlDecode(rest).Some? { assert s + UrlDecode(rest).value == UrlDecode(rest).value; }
    } else {
      var e := EncodeByte(s[0], encodeSlash);
      var t := UrlEncoded(s[1..], encodeSlash);
      assert UrlEncoded(s, encodeSlash) + rest == e + (t + rest);
      DecodeByte(s[0], encodeSlash, t + rest);
      DecodeEncodedThen(s[1..], encodeSlash, rest);
      JoinedConsed(s[0], s[1..], UrlDecode(rest));
      assert s == [s[0]] + s[1..];
    }
  }

  lemma UrlDecodeInvertsEncode(s: Bytes, encodeSlash: bool)
    ensures UrlDecode(UrlEncoded(s, encodeSlash)) == Some(s)
  {
    DecodeEncodedThen(s, encodeSlash, "");
    assert UrlEncoded(s, encodeSlash) + "" == UrlEncoded(s, encodeSlash) && s + "" == s;
  }

  lemma UrlEncodeInjective(s: Bytes, t: Bytes, encodeSlash: bool)
    requires UrlEncoded(s, encodeSlash) == UrlEncoded(t, encodeSlash)
    ensures s == t
  {
    UrlDecodeInvertsEncode(s, encodeSlash);
    UrlDecodeInvertsEncode(t, encodeSlash);
  }

  predicate UpperHex(c: Byte) {
    '0' <= c <= '9' || 'A' <= c <= 'F'
  }

  // Text made of unreserved characters, slashes where they are allowed, and upper-case percent triplets.
  predicate PercentEncoded(s: Bytes, slash: bool) {
    s == "" ||
    (if s[0] == '%' then |s| >= 3 && UpperHex(s[1]) && UpperHex(s[2]) && PercentEncoded(s[3..], slash)
     else (Unreserved(s[0]) || (slash && s[0] == '/')) && PercentEncoded(s[1..], slash))
  }

  lemma {:induction false} EncodedForm(s: Bytes, encodeSlash: bool)
    ensures PercentEncoded(UrlEncoded(s, encodeSlash), !encodeSlash)
  {
    if s != "" {
      var e := EncodeByte(s[0], encodeSlash);
      assert UrlEncoded(s, encodeSlash)[|e|..] == UrlEncoded(s[1..], encodeSlash);
      EncodedForm(s[1..], encodeSlash);
    }
  }

  lemma {:induction false} UnreservedUnchanged(s: Bytes, encodeSlash: bool)
    ensures UrlEncoded(s, encodeSlash) == s <==> forall c <- s :: Unreserved(c) || (c == '/' && !encodeSlash)
  {
    hide Unreserved;
    if s != "" {
      var e, rest := EncodeByte(s[0], encodeSlash), UrlEncoded(s[1..], encodeSlash);
      UnreservedUnchanged(s[1..], encodeSlash);
      EncodedLength(s[1..], encodeSlash);
      assert s == [s[0]] + s[1..];
      if |e| == 1 { assert (e + rest)[1..] == rest; }
    }
  }

  lemma {:induction false} EncodedLength(s: Bytes, encodeSlash: bool)
    ensures |s| <= |UrlEncoded(s, encodeSlash)| <= 3 * |s|
  {
    if s != "" { EncodedLength(s[1..], encodeSlash); }
  }

  // SigV4Encode of AwsUtils.cpp classifies with std::isalnum and never spares the slash.
  predicate SigV4Plain(c: Byte) {
    Alphanumeric(c) || c == '-' || c == '_' || c == '.' || c == '~'
  }

  method SigV4Encode(input: Bytes) returns (encoded: Bytes)
    ensures encoded == UrlEncoded(input, true)
  {
    hide UrlEncoded;
    encoded := "";
    assert input[0..] == input;
    for i := 0 to |input|
      invariant encoded + UrlEncoded(input[i..], true) == UrlEncoded(input, true)
    {
      var c := input[i];
      EncodedStep(input, i, true);
      assert encoded + (EncodeByte(c, true) + UrlEncoded(input[i + 1..], true))
          == encoded + EncodeByte(c, true) + UrlEncoded(input[i + 1..], true);
      if SigV4Plain(c) {
        encoded := encoded + [c];
      } else {
        encoded := encoded + Triplet(c);
      }
    }
    EncodedNothing(input[|input|..], true);
  }

  // ---- UrlDecode on concatenations ----

  lemma {:induction false} DecodeConcat(s: Bytes, t: Bytes)
    requires UrlDecode(s).Some?
    ensures UrlDecode(s + t) == Joined(UrlDecode(s), UrlDecode(t))
    decreases |s|
  {
    if s == "" {
      assert s + t == t;
      if UrlDecode(t).Some? { assert "" + UrlDecode(t).value == UrlDecode(t).value; }
    } else if s[0] == '%' {
      assert (s + t)[3..] == s[3..] + t;
      DecodeConcat(s[3..], t);
      JoinedConsed((16 * HexValue(s[1]).value + HexValue(s[2]).value) as char, UrlDecode(s[3..]).value, UrlDecode(t));
    } else {
      assert (s + t)[1..] == s[1..] + t;
      DecodeConcat(s[1..], t);
      JoinedConsed(if s[0] == '+' then ' ' else s[0], UrlDecode(s[1..]).value, UrlDecode(t));
    }
  }

  // ---- Split with one delimiter, and Join ----

  // boost::split: one more piece than there are delimiters, the pieces in between kept even when empty.
  function Split(s: Bytes, delim: Byte): (r: seq<Bytes>)
    ensures |r| >= 1
  {
    if s == "" then [""]
    else
      var r := Split(s[1..], delim);
      if s[0] == delim then [""] + r else [[s[0]] + r[0]] + r[1..]
  }

  function Join(v: seq<Bytes>, delim: Bytes): Bytes {
    if v == [] then "" else if |v| == 1 then v[0] else v[0] + delim + Join(v[1..], delim)
  }

  lemma {:induction false} SplitAt(s: Bytes, delim: Byte, rest: Bytes)
    requires delim !in s
    ensures Split(s + [delim] + rest, delim) == [s] + Split(rest, delim)
    ensures Split(s, delim) == [s]
  {
    var w := s + [delim] + rest;
    if s == "" {
      assert w == [delim] + rest && w[1..] == rest;
    } else {
      assert w[1..] == s[1..] + [delim] + rest;
      SplitAt(s[1..], delim, rest);
      assert s == [s[0]] + s[1..];
    }
  }

  lemma {:induction false} SplitInvertsJoin(v: seq<Bytes>, delim: Byte)
    requires v != [] && forall s <- v :: delim !in s
    ensures Split(Join(v, [delim]), delim) == v
  {
    assert v[0] in v;
    SplitAt(v[0], delim, Join(v[1..], [delim]));
    if |v| > 1 { SplitInvertsJoin(v[1..], delim); }
  }

  lemma JoinOntoHead(c: Byte, v: seq<Bytes>, delim: Bytes)
    requires v != []
    ensures Join([[c] + v[0]] + v[1..], delim) == [c] + Join(v, delim)
    ensures Join([""] + v, delim) == delim + Join(v, delim)
  {
    var w := [[c] + v[0]] + v[1..];
    assert w[1..] == v[1..] && ([""] + v)[1..] == v;
    if |v| > 1 {
      var tail := Join(v[1..], delim);
      assert [c] + v[0] + delim + tail == [c] + (v[0] + delim + tail);
    }
    assert "" + delim + Join(v, delim) == delim + Join(v, delim);
  }

  lemma {:induction false} JoinInvertsSplit(s: Bytes, delim: Byte)
    ensures Join(Split(s, delim), [delim]) == s
  {
    if s != "" {
      hide Join;
      JoinInvertsSplit(s[1..], delim);
      JoinOntoHead(s[0], Split(s[1..], delim), [delim]);
      assert s == [s[0]] + s[1..];
    }
  }

  lemma {:induction false} SplitPieces(s: Bytes, delim: Byte)
    ensures forall p <- Split(s, delim) :: delim !in p
  {
    if s != "" { SplitPieces(s[1..], delim); }
  }

  // A negative start is compared as an unsigned number and ends the loop at once.
  method JoinFrom(vec: seq<Bytes>, delimiter: Bytes, startIndex: int) returns (result: Bytes)
    ensures result == if 0 <= startIndex <= |vec| then Join(vec[startIndex..], delimiter) else ""
  {
    result := "";
    if startIndex < 0 || startIndex >= |vec| { return; }
    var i := startIndex;
    while i < |vec|
      invariant startIndex <= i <= |vec|
      invariant result + Join(vec[i..], delimiter) == Join(vec[startIndex..], delimiter)
    {
      assert vec[i..][1..] == vec[i + 1..];
      result := result + vec[i];
      if i != |vec| - 1 {
        result := result + delimiter;
      }
      i := i + 1;
    }
  }
}
