// The regular expression that takes an authorization header apart: a deterministic search, and the relation that it
// decides.
module AuthorizationRegex {
  import opened Bytes
  import opened StringUtils
  import opened Wrappers
  import Decimal

  const AWS4_REQUEST: Bytes := "aws4_request"

  function Credential(accessKeyId: Bytes, date: Bytes, region: Bytes, module_: Bytes): Bytes {
    "Credential=" + accessKeyId + "/" + date + "/" + region + "/" + module_ + "/" + AWS4_REQUEST
  }

  datatype Groups = Groups(accessKeyId: Bytes, date: Bytes, region: Bytes, module_: Bytes, requestVersion: Bytes,
                           signedHeaders: Bytes, signature: Bytes)

  datatype Token = Token(text: Bytes, rest: Bytes)

  function Literal(s: Bytes, text: Bytes): (r: Option<Bytes>)
    ensures r.Some? <==> text <= s
    ensures r.Some? ==> s == text + r.value
  {
    if text <= s then Some(s[|text|..]) else None
  }

  // ' ?'
  function OptionalSpace(s: Bytes): Bytes {
    if s != "" && s[0] == ' ' then s[1..] else s
  }

  predicate AlphanumericOrDash(c: Byte) {
    Alphanumeric(c) || c == '-'
  }

  function RunLength(s: Bytes, p: Byte -> bool): (n: nat)
    ensures n <= |s|
  {
    if s == "" || !p(s[0]) then 0 else 1 + RunLength(s[1..], p)
  }

  // One or more characters of a class and the slash after them. The slash is in no class, so only the whole run can do.
  function ReadRun(s: Bytes, p: Byte -> bool): Option<Token> {
    var n := RunLength(s, p);
    if n == 0 then None
    else
      var rest :- Literal(s[n..], "/");
      Some(Token(s[..n], rest))
  }

  // [0-9]{8} and a slash
  function ReadDate(s: Bytes): Option<Token> {
    if |s| < 8 || exists i | 0 <= i < 8 :: !Decimal.IsDigit(s[i]) then None
    else
      var rest :- Literal(s[8..], "/");
      Some(Token(s[..8], rest))
  }

  function SignatureAt(s: Bytes): Option<Bytes> {
    var rest :- Literal(s, ",");
    Literal(OptionalSpace(rest), "Signature=")
  }

  // The greedy '(.*)' in front: the last place at or before n that fits.
  function LastSignature(s: Bytes, n: nat): Option<Token>
    requires n <= |s|
  {
    match SignatureAt(s[n..])
    case Some(rest) => Some(Token(s[..n], rest))
    case None => if n == 0 then None else LastSignature(s, n - 1)
  }

  datatype Credentials = Credentials(accessKeyId: Bytes, date: Bytes, region: Bytes, module_: Bytes, rest: Bytes)

  function MatchCredential(s: Bytes): Option<Credentials> {
    var s1 :- Literal(s, "Credential=");
    var key :- ReadRun(s1, Alphanumeric);
    var date :- ReadDate(key.rest);
    var region :- ReadRun(date.rest, AlphanumericOrDash);
    var module_ :- ReadRun(region.rest, AlphanumericOrDash);
    var rest :- Literal(module_.rest, AWS4_REQUEST);
    Some(Credentials(key.text, date.text, region.text, module_.text, rest))
  }

  function MatchSigned(s: Bytes): Option<Token> {
    var s1 :- Literal(s, ",");
    var s2 :- Literal(OptionalSpace(s1), "SignedHeaders=");
    LastSignature(s2, |s2|)
  }

  function MatchAt(s: Bytes): Option<Groups> {
    var cred :- MatchCredential(s);
    var tail :- MatchSigned(cred.rest);
    Some(Groups(cred.accessKeyId, cred.date, cred.region, cred.module_, AWS4_REQUEST, tail.text, tail.rest))
  }

  // regex_search: the leftmost match.
  function Search(s: Bytes): Option<Groups> {
    match MatchAt(s)
    case Some(g) => Some(g)
    case None => if s == "" then None else Search(s[1..])
  }

  // ---- the printed form is found ----

  predicate Matches(s: Bytes, p: Byte -> bool) {
    s != "" && forall c <- s :: p(c)
  }

  lemma {:induction false} RunOf(s: Bytes, rest: Bytes, p: Byte -> bool)
    requires (forall c <- s :: p(c)) && (rest == "" || !p(rest[0]))
    ensures RunLength(s + rest, p) == |s|
  {
    if s == "" {
      assert s + rest == rest;
    } else {
      assert (s + rest)[1..] == s[1..] + rest;
      RunOf(s[1..], rest, p);
    }
  }

  lemma ReadRunOf(s: Bytes, rest: Bytes, p: Byte -> bool)
    requires Matches(s, p) && !p('/')
    ensures ReadRun(s + "/" + rest, p) == Some(Token(s, rest))
  {
    hide RunLength;
    var w := s + "/" + rest;
    assert w == s + ("/" + rest);
    RunOf(s, "/" + rest, p);
    assert w[..|s|] == s && w[|s|..] == "/" + rest;
    LiteralOf("/", rest);
  }

  lemma LiteralOf(text: Bytes, rest: Bytes)
    ensures Literal(text + rest, text) == Some(rest)
  {
    assert (text + rest)[|text|..] == rest;
  }

  predicate EightDigits(s: Bytes) {
    |s| == 8 && forall i | 0 <= i < 8 :: Decimal.IsDigit(s[i])
  }

  lemma ReadDateOf(s: Bytes, rest: Bytes)
    requires EightDigits(s)
    ensures ReadDate(s + "/" + rest) == Some(Token(s, rest))
  {
    hide Decimal.IsDigit;
    var w := s + "/" + rest;
    assert w[..8] == s && w[8..] == "/" + rest;
    forall i | 0 <= i < 8 ensures Decimal.IsDigit(w[i]) { assert w[i] == s[i]; }
    LiteralOf("/", rest);
  }

  predicate Printable(accessKeyId: Bytes, date: Bytes, region: Bytes, module_: Bytes) {
    && Matches(accessKeyId, Alphanumeric) && EightDigits(date)
    && Matches(region, AlphanumericOrDash) && Matches(module_, AlphanumericOrDash)
  }

  // The character classes of the expression.
  lemma PrintableCharacters(accessKeyId: Bytes, date: Bytes, region: Bytes, module_: Bytes)
    ensures Printable(accessKeyId, date, region, module_) <==>
      && accessKeyId != "" && region != "" && module_ != "" && |date| == 8
      && (forall c <- accessKeyId :: c in UPPER || c in LOWER || c in DIGITS)
      && (forall c <- date :: c in DIGITS)
      && (forall c <- region + module_ :: c in UPPER || c in LOWER || c in DIGITS || c == '-')
  {
    hide UPPER, LOWER, DIGITS;
    forall c: Byte ensures c in UPPER <==> Upper(c) { CapitalRun(c); }
    forall c: Byte ensures c in LOWER <==> 'a' <= c <= 'z' { SmallRun(c); }
    forall c: Byte ensures c in DIGITS <==> Decimal.IsDigit(c) { DigitRun(c); }
    assert forall c: Byte :: c in region + module_ <==> c in region || c in module_;
    assert forall i | 0 <= i < |date| :: date[i] in date;
  }

  lemma CredentialParses(accessKeyId: Bytes, date: Bytes, region: Bytes, module_: Bytes, rest: Bytes)
    requires Printable(accessKeyId, date, region, module_)
    ensures MatchCredential(Credential(accessKeyId, date, region, module_) + rest)
         == Some(Credentials(accessKeyId, date, region, module_, rest))
  {
    hide Literal, ReadRun, ReadDate, Matches, EightDigits;
    var r4 := AWS4_REQUEST + rest;
    var r3 := module_ + "/" + r4;
    var r2 := region + "/" + r3;
    var r1 := date + "/" + r2;
    var r0 := accessKeyId + "/" + r1;
    CredentialGrouped(accessKeyId, date, region, module_, rest);
    LiteralOf("Credential=", r0);
    ReadRunOf(accessKeyId, r1, Alphanumeric);
    ReadDateOf(date, r2);
    ReadRunOf(region, r3, AlphanumericOrDash);
    ReadRunOf(module_, r4, AlphanumericOrDash);
    LiteralOf(AWS4_REQUEST, rest);
  }

  lemma CredentialGrouped(accessKeyId: Bytes, date: Bytes, region: Bytes, module_: Bytes, rest: Bytes)
    ensures Credential(accessKeyId, date, region, module_) + rest
      == "Credential=" + (accessKeyId + "/" + (date + "/" + (region + "/" + (module_ + "/" + (AWS4_REQUEST + rest)))))
  {
    var r4 := AWS4_REQUEST + rest;
    var r3 := module_ + "/" + r4;
    var r2 := region + "/" + r3;
    var c1 := "Credential=" + accessKeyId + "/";
    var c2 := c1 + date + "/";
    var c3 := c2 + region + "/";
    assert c3 + module_ + "/" + AWS4_REQUEST + rest == c3 + r3;
    assert c3 + r3 == c2 + r2;
    assert c2 + r2 == c1 + (date + "/" + r2);
  }

  lemma {:induction false} NoLaterSignature(s: Bytes, from: nat, n: nat)
    requires from <= n <= |s| && SignatureAt(s[from..]).Some? && forall i | from < i < |s| :: s[i] != ','
    ensures LastSignature(s, n) == Some(Token(s[..from], SignatureAt(s[from..]).value))
    decreases n
  {
    hide SignatureAt;
    if n > from {
      NoComma(s[n..]);
      NoLaterSignature(s, from, n - 1);
    }
  }

  lemma NoComma(s: Bytes)
    requires s == "" || s[0] != ','
    ensures SignatureAt(s).None?
  {
  }

  lemma LastSignatureOf(signedHeaders: Bytes, signature: Bytes)
    requires ',' !in signature
    ensures var s := signedHeaders + ",Signature=" + signature;
      LastSignature(s, |s|) == Some(Token(signedHeaders, signature))
  {
    hide LastSignature;
    var s, n := signedHeaders + ",Signature=" + signature, |signedHeaders|;
    assert s[..n] == signedHeaders && s[n..] == "," + ("Signature=" + signature);
    LiteralOf(",", "Signature=" + signature);
    LiteralOf("Signature=", signature);
    forall i | n < i < |s| ensures s[i] != ',' {
      assert s[i] == (",Signature=" + signature)[i - n];
      if i - n >= 11 { assert s[i] == signature[i - n - 11]; }
    }
    NoLaterSignature(s, n, |s|);
  }

  lemma SignedParses(signedHeaders: Bytes, signature: Bytes)
    requires ',' !in signature
    ensures MatchSigned(",SignedHeaders=" + signedHeaders + ",Signature=" + signature)
         == Some(Token(signedHeaders, signature))
  {
    hide Literal, LastSignature;
    var tail := signedHeaders + ",Signature=" + signature;
    assert ",SignedHeaders=" + signedHeaders + ",Signature=" + signature == "," + ("SignedHeaders=" + tail);
    LiteralOf(",", "SignedHeaders=" + tail);
    LiteralOf("SignedHeaders=", tail);
    LastSignatureOf(signedHeaders, signature);
  }

  lemma NoMatchBefore(s: Bytes)
    requires |s| < 2 || s[0] != 'C' || s[1] != 'r'
    ensures MatchAt(s).None?
  {
    hide Literal, MatchSigned, ReadRun, ReadDate;
    NotCredential(s);
  }

  lemma NotCredential(s: Bytes)
    requires |s| < 2 || s[0] != 'C' || s[1] != 'r'
    ensures Literal(s, "Credential=").None?
  {
  }

  lemma {:induction false} SearchSkips(prefix: Bytes, body: Bytes)
    requires forall i | 0 <= i < |prefix| :: prefix[i] == 'C' ==> i + 1 < |prefix| && prefix[i + 1] != 'r'
    ensures MatchAt(body).Some? ==> Search(prefix + body) == MatchAt(body)
  {
    hide MatchAt;
    if prefix == "" {
      assert prefix + body == body;
    } else {
      NoMatchBefore(prefix + body);
      assert (prefix + body)[1..] == prefix[1..] + body;
      SearchSkips(prefix[1..], body);
    }
  }

  // ---- the search decides the relation ----

  function SignedText(g: Groups, space1: Bytes, space2: Bytes): Bytes {
    "," + (space1 + ("SignedHeaders=" + (g.signedHeaders + ("," + (space2 + ("Signature=" + g.signature))))))
  }

  // The groups g match the whole of s, with or without the optional spaces.
  predicate MatchesWith(s: Bytes, g: Groups, space1: Bytes, space2: Bytes) {
    && (space1 == "" || space1 == " ") && (space2 == "" || space2 == " ")
    && Printable(g.accessKeyId, g.date, g.region, g.module_) && g.requestVersion == AWS4_REQUEST
    && s == Credential(g.accessKeyId, g.date, g.region, g.module_)
            + SignedText(g, space1, space2)
  }

  predicate MatchesGroups(s: Bytes, g: Groups) {
    exists space1, space2 | space1 in ["", " "] && space2 in ["", " "] :: MatchesWith(s, g, space1, space2)
  }

  lemma OptionalSpaceOf(space: Bytes, rest: Bytes)
    requires (space == "" || space == " ") && rest != "" && rest[0] != ' '
    ensures OptionalSpace(space + rest) == rest
  {
    assert (" " + rest)[1..] == rest && "" + rest == rest;
  }

  // Some place at or behind one that fits is found.
  lemma {:induction false} LastSignatureFound(s: Bytes, from: nat, n: nat)
    requires from <= n <= |s| && SignatureAt(s[from..]).Some?
    ensures LastSignature(s, n).Some? && |LastSignature(s, n).value.text| >= from
    decreases n
  {
    hide SignatureAt;
    if SignatureAt(s[n..]).None? { LastSignatureFound(s, from, n - 1); }
  }

  lemma TailFound(signedHeaders: Bytes, space: Bytes, signature: Bytes)
    requires space == "" || space == " "
    ensures var s := signedHeaders + ("," + (space + ("Signature=" + signature)));
      LastSignature(s, |s|).Some? && |LastSignature(s, |s|).value.text| >= |signedHeaders|
  {
    hide LastSignature, Literal, OptionalSpace;
    var rest := "," + (space + ("Signature=" + signature));
    var s := signedHeaders + rest;
    assert s[|signedHeaders|..] == rest;
    LiteralOf(",", space + ("Signature=" + signature));
    OptionalSpaceOf(space, "Signature=" + signature);
    LiteralOf("Signature=", signature);
    LastSignatureFound(s, |signedHeaders|, |s|);
  }

  lemma SignedFound(g: Groups, space1: Bytes, space2: Bytes)
    requires (space1 == "" || space1 == " ") && (space2 == "" || space2 == " ")
    ensures var r := MatchSigned(SignedText(g, space1, space2));
      r.Some? && |r.value.text| >= |g.signedHeaders|
  {
    hide Literal, OptionalSpace, LastSignature;
    var tail := g.signedHeaders + ("," + (space2 + ("Signature=" + g.signature)));
    LiteralOf(",", space1 + ("SignedHeaders=" + tail));
    OptionalSpaceOf(space1, "SignedHeaders=" + tail);
    LiteralOf("SignedHeaders=", tail);
    TailFound(g.signedHeaders, space2, g.signature);
  }

  // Nothing that matches is missed, and of all matches at one place the greedy one is taken: the groups in front are
  // the same, and the signed headers are the longest possible.
  lemma MatchIsFound(s: Bytes, g: Groups)
    requires MatchesGroups(s, g)
    ensures MatchAt(s).Some?
    ensures var f := MatchAt(s).value;
      && f.accessKeyId == g.accessKeyId && f.date == g.date && f.region == g.region && f.module_ == g.module_
      && f.requestVersion == g.requestVersion && |f.signedHeaders| >= |g.signedHeaders|
  {
    hide MatchCredential, MatchSigned, Printable, Credential;
    var space1, space2 :| space1 in ["", " "] && space2 in ["", " "] && MatchesWith(s, g, space1, space2);
    CredentialParses(g.accessKeyId, g.date, g.region, g.module_, SignedText(g, space1, space2));
    SignedFound(g, space1, space2);
  }

  lemma {:induction false} RunIsMaximal(s: Bytes, p: Byte -> bool)
    ensures forall i | 0 <= i < RunLength(s, p) :: p(s[i])
  {
    if s != "" && p(s[0]) {
      RunIsMaximal(s[1..], p);
      forall i | 0 <= i < RunLength(s, p) ensures p(s[i]) { if i > 0 { assert s[i] == s[1..][i - 1]; } }
    }
  }

  lemma ReadRunShape(s: Bytes, p: Byte -> bool)
    ensures var r := ReadRun(s, p);
      r.Some? ==> Matches(r.value.text, p) && s == r.value.text + "/" + r.value.rest
  {
    RunIsMaximal(s, p);
    var n := RunLength(s, p);
    assert s == s[..n] + s[n..];
  }

  lemma ReadDateShape(s: Bytes)
    ensures var r := ReadDate(s);
      r.Some? ==> EightDigits(r.value.text) && s == r.value.text + "/" + r.value.rest
  {
    if |s| >= 8 { assert s == s[..8] + s[8..]; }
  }

  lemma MatchedCredentialShape(s: Bytes)
    ensures var c := MatchCredential(s);
      c.Some? ==>
        && Printable(c.value.accessKeyId, c.value.date, c.value.region, c.value.module_)
        && s == Credential(c.value.accessKeyId, c.value.date, c.value.region, c.value.module_) + c.value.rest
  {
    hide ReadRun, ReadDate, Matches, EightDigits, Credential;
    var c := MatchCredential(s);
    if c.Some? {
      var s1 := Literal(s, "Credential=").value;
      ReadRunShape(s1, Alphanumeric);
      var key := ReadRun(s1, Alphanumeric).value;
      ReadDateShape(key.rest);
      var date := ReadDate(key.rest).value;
      ReadRunShape(date.rest, AlphanumericOrDash);
      var region := ReadRun(date.rest, AlphanumericOrDash).value;
      ReadRunShape(region.rest, AlphanumericOrDash);
      CredentialGrouped(c.value.accessKeyId, c.value.date, c.value.region, c.value.module_, c.value.rest);
    }
  }

  lemma OptionalSpaceShape(s: Bytes) returns (space: Bytes)
    ensures (space == "" || space == " ") && s == space + OptionalSpace(s)
  {
    space := if s != "" && s[0] == ' ' then " " else "";
    assert s == "" + s;
  }

  lemma {:induction false} LastSignatureShape(s: Bytes, n: nat) returns (space: Bytes)
    requires n <= |s|
    ensures space == "" || space == " "
    ensures var r := LastSignature(s, n);
      r.Some? ==> s == r.value.text + ("," + (space + ("Signature=" + r.value.rest)))
  {
    hide Literal, OptionalSpace;
    if SignatureAt(s[n..]).Some? {
      var t := Literal(s[n..], ",").value;
      space := OptionalSpaceShape(t);
      assert s == s[..n] + s[n..];
    } else if n > 0 {
      space := LastSignatureShape(s, n - 1);
    } else {
      space := "";
    }
  }

  lemma FoundMatches(s: Bytes)
    ensures MatchAt(s).Some? ==> MatchesGroups(s, MatchAt(s).value)
  {
    hide MatchCredential, Literal, OptionalSpace, LastSignature, Printable, Credential;
    if MatchAt(s).Some? {
      MatchedCredentialShape(s);
      var rest := MatchCredential(s).value.rest;
      var t := Literal(rest, ",").value;
      var space1 := OptionalSpaceShape(t);
      var tail := Literal(OptionalSpace(t), "SignedHeaders=").value;
      var space2 := LastSignatureShape(tail, |tail|);
      assert MatchesWith(s, MatchAt(s).value, space1, space2);
    }
  }

  // The search finds the leftmost place where anything matches, and there the greedy match; it fails only if nothing
  // matches anywhere.
  lemma {:induction false} SearchIsLeftmostGreedy(s: Bytes)
    ensures match Search(s)
      case Some(g) =>
        exists i | 0 <= i <= |s| ::
          && MatchAt(s[i..]) == Some(g) && MatchesGroups(s[i..], g)
          && (forall h :: MatchesGroups(s[i..], h) ==> |h.signedHeaders| <= |g.signedHeaders|)
          && forall j, h | 0 <= j < i :: !MatchesGroups(s[j..], h)
      case None => forall j, h | 0 <= j <= |s| :: !MatchesGroups(s[j..], h)
  {
    hide MatchAt, MatchesGroups;
    FoundMatches(s);
    forall h | MatchesGroups(s, h) ensures MatchAt(s).Some? && |h.signedHeaders| <= |MatchAt(s).value.signedHeaders| {
      MatchIsFound(s, h);
    }
    assert s[0..] == s;
    if MatchAt(s).None? && s != "" {
      SearchIsLeftmostGreedy(s[1..]);
      assert forall j | 1 <= j <= |s| :: s[1..][j - 1..] == s[j..];
    }
  }
}
