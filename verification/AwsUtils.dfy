// Signing a request with AWS Signature Version 4 and verifying the signature. SHA-256 and HMAC are function parameters.
module AwsUtils {
  import opened AuthorizationRegex
  import opened Bytes
  import opened Characters
  import opened StringUtils
  import opened Wrappers
  import HttpUtils

  // ---- requests: header names are compared without regard to case, and set replaces ----

  datatype Message = Message(verb: Bytes, target: Bytes, fields: map<Bytes, Bytes>, body: Bytes)

  class Request {
    var verb: Bytes
    var target: Bytes
    var fields: map<Bytes, Bytes>
    var body: Bytes

    ghost function Value(): Message
      reads this
    {
      Message(verb, target, fields, body)
    }

    constructor (verb: Bytes, target: Bytes, body: Bytes)
      ensures Value() == Message(verb, target, map[], body)
    {
      this.verb, this.target, this.body := verb, target, body;
      fields := map[];
    }

    predicate HasHeader(name: Bytes)
      reads this
    {
      ToLower(name) in fields
    }

    function GetHeaderValue(name: Bytes): Bytes
      reads this
    {
      if HasHeader(name) then fields[ToLower(name)] else ""
    }

    method Set(name: Bytes, value: Bytes)
      modifies this
      ensures Value() == old(Value()).(fields := old(fields)[ToLower(name) := value])
    {
      fields := fields[ToLower(name) := value];
    }
  }

  // ---- hashes ----

  type HmacDigest = d: Bytes | |d| == 32 witness seq(32, i => 0 as char)

  // sha256 gives the hexadecimal text.
  datatype Crypto = Crypto(sha256: Bytes -> Bytes, hmac: (Bytes, Bytes) -> HmacDigest)

  function HexEncode(s: Bytes): (r: Bytes)
    ensures |r| == 2 * |s| && ',' !in r
  {
    if s == "" then "" else [HexLower(s[0] as int / 16), HexLower(s[0] as int % 16)] + HexEncode(s[1..])
  }

  // Two lower-case digits for each byte.
  lemma {:induction false} HexText(s: Bytes, i: nat)
    requires i < |s|
    ensures var d := "0123456789abcdef";
      HexEncode(s)[2 * i] == d[s[i] as int / 16] && HexEncode(s)[2 * i + 1] == d[s[i] as int % 16]
  {
    if i == 0 {
      HexDigits(s[0] as int / 16);
      HexDigits(s[0] as int % 16);
    } else {
      HexText(s[1..], i - 1);
      assert HexEncode(s)[2..] == HexEncode(s[1..]);
    }
  }

  // ---- the canonical request ----

  function CutAtQuestion(s: Bytes): (r: Bytes)
    ensures r <= s && '?' !in r && (|r| < |s| ==> s[|r|] == '?')
  {
    if s == "" || s[0] == '?' then "" else [s[0]] + CutAtQuestion(s[1..])
  }

  function CanonicalUri(target: Bytes): (r: Bytes)
    ensures r != "" && r[0] == '/'
  {
    var path := CutAtQuestion(target);
    if path == "" then "/"
    else
      var encoded := UrlEncoded(path, false);
      if encoded != "" && encoded[0] == '/' then encoded else "/" + encoded
  }

  function Collapsed(s: Bytes, prevSpace: bool): Bytes {
    if s == "" then ""
    else if s[0] == ' ' then (if prevSpace then "" else " ") + Collapsed(s[1..], true)
    else [s[0]] + Collapsed(s[1..], false)
  }

  function Trimmed(s: Bytes): Bytes {
    TrimLeft(TrimRight(s))
  }

  function Normalized(value: Bytes): Bytes {
    Collapsed(Trimmed(value), false)
  }

  method NormalizeHeaderValue(value: Bytes) returns (result: Bytes)
    ensures result == Normalized(value)
  {
    hide Collapsed, Trimmed;
    var trimmed := Trimmed(value);
    result := "";
    var prevSpace := false;
    assert trimmed[0..] == trimmed;
    for i := 0 to |trimmed|
      invariant result + Collapsed(trimmed[i..], prevSpace) == Collapsed(trimmed, false)
    {
      var c := trimmed[i];
      CollapsedStep(trimmed, i, prevSpace, result);
      if c == ' ' {
        if !prevSpace { result := result + [c]; }
        prevSpace := true;
      } else {
        result := result + [c];
        prevSpace := false;
      }
    }
    CollapsedNothing(prevSpace);
    assert trimmed[|trimmed|..] == "" && result + "" == result;
  }

  lemma CollapsedStep(s: Bytes, i: nat, prevSpace: bool, result: Bytes)
    requires i < |s|
    ensures result + Collapsed(s[i..], prevSpace)
         == (if s[i] == ' ' && prevSpace then result else result + [s[i]]) + Collapsed(s[i + 1..], s[i] == ' ')
  {
    assert s[i..][1..] == s[i + 1..];
    var tail := Collapsed(s[i + 1..], s[i] == ' ');
    assert result + ([s[i]] + tail) == result + [s[i]] + tail;
    assert result + ("" + tail) == result + tail;
  }

  predicate Normal(s: Bytes) {
    && (s != "" ==> !Space(s[0]) && !Space(s[|s| - 1]))
    && forall i | 0 <= i < |s| - 1 :: !(s[i] == ' ' && s[i + 1] == ' ')
  }

  predicate NoDoubleSpace(s: Bytes, prevSpace: bool) {
    s == "" || (!(s[0] == ' ' && prevSpace) && NoDoubleSpace(s[1..], s[0] == ' '))
  }

  lemma {:induction false} NoDoubleSpaceAt(s: Bytes, prevSpace: bool)
    ensures NoDoubleSpace(s, prevSpace) <==>
      !(s != "" && s[0] == ' ' && prevSpace) && forall i | 0 <= i < |s| - 1 :: !(s[i] == ' ' && s[i + 1] == ' ')
  {
    if s != "" {
      NoDoubleSpaceAt(s[1..], s[0] == ' ');
      if forall i | 0 <= i < |s| - 1 :: !(s[i] == ' ' && s[i + 1] == ' ') {
        forall i | 0 <= i < |s[1..]| - 1 ensures !(s[1..][i] == ' ' && s[1..][i + 1] == ' ') {
          assert s[i + 1] == s[1..][i] && s[i + 2] == s[1..][i + 1];
        }
      }
      if NoDoubleSpace(s, prevSpace) {
        forall i | 0 <= i < |s| - 1 ensures !(s[i] == ' ' && s[i + 1] == ' ') {
          if i > 0 { assert s[i] == s[1..][i - 1] && s[i + 1] == s[1..][i]; }
        }
      }
    }
  }

  lemma {:induction false} CollapsedHasNoDouble(s: Bytes, prevSpace: bool)
    ensures NoDoubleSpace(Collapsed(s, prevSpace), prevSpace)
    ensures NoDoubleSpace(s, prevSpace) ==> Collapsed(s, prevSpace) == s
    ensures s != "" && s[0] != ' ' ==> Collapsed(s, prevSpace) != "" && Collapsed(s, prevSpace)[0] == s[0]
  {
    if s != "" {
      var t := Collapsed(s[1..], s[0] == ' ');
      CollapsedHasNoDouble(s[1..], s[0] == ' ');
      assert s == [s[0]] + s[1..];
      assert ([s[0]] + t)[1..] == t && "" + t == t;
    }
  }

  lemma {:induction false} CollapsedLast(s: Bytes, prevSpace: bool)
    requires s != "" && s[|s| - 1] != ' '
    ensures Collapsed(s, prevSpace) != "" && Collapsed(s, prevSpace)[|Collapsed(s, prevSpace)| - 1] == s[|s| - 1]
  {
    if |s| > 1 { CollapsedLast(s[1..], s[0] == ' '); }
  }

  // Normalising gives a value with no white space around it and no two spaces in a row, and leaves such values alone.
  lemma NormalizedIsNormal(value: Bytes)
    ensures Normal(Normalized(value))
    ensures Normalized(value) == value <==> Normal(value)
    ensures Normalized(Normalized(value)) == Normalized(value)
  {
    hide Normalized, Normal;
    NormalForm(value);
    if Normal(value) { NormalUnchanged(value); }
    NormalUnchanged(Normalized(value));
  }

  lemma NormalForm(value: Bytes)
    ensures Normal(Normalized(value))
  {
    hide Collapsed, Trimmed;
    var t := Trimmed(value);
    CollapsedNothing(false);
    if t != "" {
      TrimmedEnds(value);
      CollapsedHasNoDouble(t, false);
      CollapsedLast(t, false);
      NoDoubleSpaceAt(Normalized(value), false);
    }
  }

  lemma CollapsedNothing(prevSpace: bool)
    ensures Collapsed("", prevSpace) == ""
  {
  }

  lemma TrimmedEnds(value: Bytes)
    ensures var t := Trimmed(value); t != "" ==> !Space(t[0]) && !Space(t[|t| - 1])
  {
    hide TrimLeft, TrimRight, Space;
    TrimRightShape(value);
    TrimLeftShape(TrimRight(value));
  }

  lemma NormalUnchanged(value: Bytes)
    requires Normal(value)
    ensures Normalized(value) == value
  {
    NoDoubleSpaceAt(value, false);
    CollapsedHasNoDouble(value, false);
  }

  // The words of a value: what stands between its spaces.
  function Words(pieces: seq<Bytes>): seq<Bytes> {
    if pieces == [] then [] else (if pieces[0] == "" then [] else [pieces[0]]) + Words(pieces[1..])
  }

  lemma {:induction false} CollapsedWords(s: Bytes, prevSpace: bool)
    ensures var t := Collapsed(s, prevSpace);
      && Words(Split(t, ' ')) == Words(Split(s, ' '))
      && (!prevSpace ==> Split(t, ' ')[0] == Split(s, ' ')[0] && Words(Split(t, ' ')[1..]) == Words(Split(s, ' ')[1..]))
  {
    if s != "" {
      CollapsedWords(s[1..], s[0] == ' ');
      var u := Collapsed(s[1..], s[0] == ' ');
      var r, q := Split(s[1..], ' '), Split(u, ' ');
      assert ([s[0]] + u)[1..] == u && "" + u == u;
      if s[0] == ' ' {
        assert ([""] + r)[1..] == r && ([""] + q)[1..] == q;
        assert [] + Words(r) == Words(r) && [] + Words(q) == Words(q);
      } else {
        assert ([[s[0]] + r[0]] + r[1..])[1..] == r[1..] && ([[s[0]] + q[0]] + q[1..])[1..] == q[1..];
      }
    }
  }

  lemma {:induction false} NormalPieces(s: Bytes, prevSpace: bool)
    requires NoDoubleSpace(s, prevSpace) && s != "" && s[|s| - 1] != ' '
    ensures var r := Split(s, ' ');
      && (forall i | 1 <= i < |r| :: r[i] != "")
      && (r[0] == "" <==> s[0] == ' ')
  {
    if |s| > 1 { NormalPieces(s[1..], s[0] == ' '); }
  }

  lemma {:induction false} AllWords(pieces: seq<Bytes>)
    requires forall i | 0 <= i < |pieces| :: pieces[i] != ""
    ensures Words(pieces) == pieces
  {
    if pieces != [] { AllWords(pieces[1..]); }
  }

  // A normalised value is made of the words of the trimmed one, with one space between them.
  lemma NormalizedIsJoinedWords(value: Bytes)
    ensures Normalized(value) == Join(Words(Split(Trimmed(value), ' ')), " ")
  {
    hide Collapsed, Trimmed, Split, Join, Words;
    var t, r := Trimmed(value), Normalized(value);
    CollapsedWords(t, false);
    CollapsedNothing(false);
    JoinInvertsSplit(r, ' ');
    if t == "" {
      NoWords();
    } else {
      TrimmedEnds(value);
      CollapsedHasNoDouble(t, false);
      CollapsedLast(t, false);
      NormalPieces(r, false);
      AllWords(Split(r, ' '));
    }
  }

  lemma NoWords()
    ensures Join(Words(Split("", ' ')), " ") == ""
  {
  }

  function HeaderLine(fields: map<Bytes, Bytes>, name: Bytes): Bytes {
    var key := ToLower(name);
    if key in fields then key + ":" + Normalized(fields[key]) + "\n" else ""
  }

  function HeaderLines(fields: map<Bytes, Bytes>, names: seq<Bytes>): Bytes {
    if names == [] then "" else HeaderLine(fields, names[0]) + HeaderLines(fields, names[1..])
  }

  datatype Keys = Keys(signingVersion: Bytes, secretAccessKey: Bytes, dateTime: Bytes, isoDateTime: Bytes, scope: Bytes,
                       region: Bytes, module_: Bytes, requestVersion: Bytes, signedHeaders: Bytes, signature: Bytes)

  function CanonicalHeaders(m: Message, keys: Keys): Bytes {
    HeaderLines(m.fields, Split(keys.signedHeaders, ';'))
  }

  method GetCanonicalHeaders(request: Request, keys: Keys) returns (result: Bytes)
    ensures result == CanonicalHeaders(request.Value(), keys)
  {
    hide Normalized, ToLower;
    result := "";
    var names := Split(keys.signedHeaders, ';');
    var fields := request.fields;
    assert names[0..] == names;
    for i := 0 to |names|
      invariant result + HeaderLines(fields, names[i..]) == HeaderLines(fields, names)
    {
      var header := names[i];
      LinesStep(fields, names, i, result);
      if request.HasHeader(header) {
        var value := NormalizeHeaderValue(request.GetHeaderValue(header));
        result := result + (ToLower(header) + ":" + value + "\n");
      } else {
        assert result + "" == result;
      }
    }
    assert names[|names|..] == [] && result + "" == result;
  }

  lemma LinesStep(fields: map<Bytes, Bytes>, names: seq<Bytes>, i: nat, result: Bytes)
    requires i < |names|
    ensures result + HeaderLines(fields, names[i..])
         == result + HeaderLine(fields, names[i]) + HeaderLines(fields, names[i + 1..])
  {
    hide HeaderLine;
    assert names[i..][1..] == names[i + 1..];
  }

  const CONTENT_HASH: Bytes := "x-amz-content-sha256"
  const AMZ_DATE: Bytes := "x-amz-date"
  const AUTHORIZATION: Bytes := "authorization"

  function PayloadHash(c: Crypto, m: Message): Bytes {
    if CONTENT_HASH in m.fields then m.fields[CONTENT_HASH] else c.sha256(m.body)
  }

  function CanonicalLines(verb: Bytes, uri: Bytes, query: Bytes, headers: Bytes, signedHeaders: Bytes,
                          hash: Bytes): Bytes
  {
    verb + "\n" + uri + "\n" + query + "\n" + headers + "\n" + signedHeaders + "\n" + hash
  }

  // None when the query of the target cannot be decoded: an exception leaves the caller.
  function CanonicalRequest(c: Crypto, m: Message, keys: Keys): Option<Bytes> {
    var query :- HttpUtils.CanonicalOf(m.target);
    Some(CanonicalLines(m.verb, CanonicalUri(m.target), query, CanonicalHeaders(m, keys), keys.signedHeaders,
                        PayloadHash(c, m)))
  }

  lemma {:induction false} LowerUnchanged(s: Bytes)
    requires forall i | 0 <= i < |s| :: !('A' <= s[i] <= 'Z')
    ensures ToLower(s) == s
  {
    if s != "" {
      LowerUnchanged(s[1..]);
      assert s == [s[0]] + s[1..];
    }
  }

  method GetCanonicalRequest(c: Crypto, request: Request, keys: Keys) returns (result: Option<Bytes>)
    ensures result == CanonicalRequest(c, request.Value(), keys)
  {
    hide ToLower, CanonicalUri, CanonicalHeaders, HttpUtils.CanonicalOf;
    LowerUnchanged(CONTENT_HASH);
    var cr := request.verb + "\n";
    cr := cr + CanonicalUri(request.target) + "\n";
    var query := HttpUtils.GetCanonicalQueryParameters(request.target);
    if query.None? { return None; }
    cr := cr + query.value + "\n";
    var headers := GetCanonicalHeaders(request, keys);
    cr := cr + headers + "\n";
    cr := cr + keys.signedHeaders + "\n";
    var hash: Bytes;
    if request.HasHeader(CONTENT_HASH) {
      hash := request.GetHeaderValue(CONTENT_HASH);
    } else {
      hash := c.sha256(request.body);
    }
    cr := cr + hash;
    assert cr == CanonicalLines(request.verb, CanonicalUri(request.target), query.value, headers, keys.signedHeaders,
                                hash);
    return Some(cr);
  }

  function StringToSign(c: Crypto, canonicalRequest: Bytes, keys: Keys): Bytes {
    keys.signingVersion + "\n" + keys.isoDateTime + "\n" + keys.scope + "\n" + c.sha256(canonicalRequest)
  }

  function SigningKey(c: Crypto, keys: Keys): Bytes {
    var k := c.hmac("AWS4" + keys.secretAccessKey, keys.dateTime);
    c.hmac(c.hmac(c.hmac(k, keys.region), keys.module_), keys.requestVersion)
  }

  function Signature(c: Crypto, keys: Keys, stringToSign: Bytes): (r: Bytes)
    ensures r != "" && ',' !in r
  {
    HexEncode(c.hmac(SigningKey(c, keys), stringToSign))
  }

  // ---- the authorization header, printed ----

  const ALGORITHM: Bytes := "AWS4-HMAC-SHA256"
  function Scope(date: Bytes, region: Bytes, module_: Bytes): Bytes {
    date + "/" + region + "/" + module_ + "/" + AWS4_REQUEST
  }

  function Authorization(accessKeyId: Bytes, keys: Keys, signature: Bytes): Bytes {
    ALGORITHM + " " + Credential(accessKeyId, keys.dateTime, keys.region, keys.module_)
    + ",SignedHeaders=" + keys.signedHeaders + ",Signature=" + signature
  }

  datatype Config = Config(host: Bytes, region: Bytes, accessKeyId: Bytes, secretAccessKey: Bytes)

  // The clock is read three times: for the x-amz-date header, for the date and for the string to sign.
  datatype Clock = Clock(header: Bytes, date: Bytes, signed: Bytes)

  function SigningKeys(cfg: Config, clock: Clock, module_: Bytes, signedHeaders: Bytes): Keys {
    Keys(ALGORITHM, cfg.secretAccessKey, clock.date, clock.signed, Scope(clock.date, cfg.region, module_), cfg.region,
         module_, AWS4_REQUEST, signedHeaders, "")
  }

  function Prepared(c: Crypto, m: Message, cfg: Config, clock: Clock, contentType: Bytes, payload: Bytes): Message {
    m.(fields := m.fields["host" := cfg.host]["content-type" := contentType][CONTENT_HASH := c.sha256(payload)]
                         [AMZ_DATE := clock.header]["x-amz-security-token" := cfg.secretAccessKey])
  }

  function SignatureOf(c: Crypto, m: Message, keys: Keys): Option<Bytes> {
    var canonicalRequest :- CanonicalRequest(c, m, keys);
    Some(Signature(c, keys, StringToSign(c, canonicalRequest, keys)))
  }

  function Signed(c: Crypto, m: Message, cfg: Config, clock: Clock, module_: Bytes, contentType: Bytes,
                  signedHeaders: Bytes, payload: Bytes): Option<Message>
  {
    var keys := SigningKeys(cfg, clock, module_, signedHeaders);
    var p := Prepared(c, m, cfg, clock, contentType, payload);
    var signature :- SignatureOf(c, p, keys);
    Some(p.(fields := p.fields[AUTHORIZATION := Authorization(cfg.accessKeyId, keys, signature)]))
  }

  // When the target cannot be decoded, the exception leaves the request with every header but the last.
  method AddAuthorizationHeader(c: Crypto, request: Request, cfg: Config, clock: Clock, module_: Bytes,
                                contentType: Bytes, signedHeaders: Bytes, payload: Bytes) returns (ok: bool)
    modifies request
    ensures var r := Signed(c, old(request.Value()), cfg, clock, module_, contentType, signedHeaders, payload);
      && ok == r.Some?
      && request.Value() == if ok then r.value
                            else Prepared(c, old(request.Value()), cfg, clock, contentType, payload)
  {
    hide ToLower, CanonicalRequest, Signature, StringToSign, Authorization;
    LowerUnchanged(CONTENT_HASH);
    LowerUnchanged(AMZ_DATE);
    LowerUnchanged(AUTHORIZATION);
    LowerUnchanged("host");
    LowerUnchanged("content-type");
    LowerUnchanged("x-amz-security-token");
    request.Set("host", cfg.host);
    request.Set("content-type", contentType);
    request.Set(CONTENT_HASH, c.sha256(payload));
    request.Set(AMZ_DATE, clock.header);
    request.Set("x-amz-security-token", cfg.secretAccessKey);
    assert request.Value() == Prepared(c, old(request.Value()), cfg, clock, contentType, payload);
    var scope := clock.date + "/" + cfg.region + "/" + module_ + "/" + AWS4_REQUEST;
    var keys := Keys(ALGORITHM, cfg.secretAccessKey, clock.date, clock.signed, scope, cfg.region, module_, AWS4_REQUEST,
                     signedHeaders, "");
    var canonicalRequest := GetCanonicalRequest(c, request, keys);
    if canonicalRequest.None? { return false; }
    var signature := Signature(c, keys, StringToSign(c, canonicalRequest.value, keys));
    request.Set(AUTHORIZATION, Authorization(cfg.accessKeyId, keys, signature));
    return true;
  }

  // ---- the authorization header, parsed ----

  function KeysOf(g: Groups, signingVersion: Bytes, secret: Bytes, isoDateTime: Bytes): Keys {
    Keys(signingVersion, if secret == "" then "none" else secret, g.date, isoDateTime,
         g.date + "/" + g.region + "/" + g.module_ + "/" + g.requestVersion,
         g.region, g.module_, g.requestVersion, g.signedHeaders, g.signature)
  }

  const NO_KEYS := Keys("", "", "", "", "", "", "", "", "", "")

  function FieldOr(fields: map<Bytes, Bytes>, name: Bytes, default: Bytes): Bytes {
    if name in fields then fields[name] else default
  }

  // Without a match the signature is empty, and an empty signature is never accepted.
  function ParsedKeys(m: Message, secret: Bytes, now: Bytes): Keys {
    var header := FieldOr(m.fields, AUTHORIZATION, "");
    match Search(header)
    case None => NO_KEYS
    case Some(g) => KeysOf(g, Split(header, ' ')[0], secret, FieldOr(m.fields, AMZ_DATE, now))
  }

  predicate Equals(s: Bytes, t: Bytes) {
    s != "" && t != "" && s == t
  }

  // None when the target cannot be decoded.
  function Verified(c: Crypto, m: Message, secret: Bytes, now: Bytes): Option<bool> {
    var keys := ParsedKeys(m, secret, now);
    var signature :- SignatureOf(c, m, keys);
    Some(Equals(signature, keys.signature))
  }

  method GetAuthorizationKeys(request: Request, secret: Bytes, now: Bytes) returns (keys: Keys)
    ensures keys == ParsedKeys(request.Value(), secret, now)
    ensures match Search(FieldOr(request.fields, AUTHORIZATION, ""))
      case None => keys.secretAccessKey == "" && keys.signature == ""
      case Some(g) =>
        && keys.secretAccessKey == (if secret == "" then "none" else secret)
        && keys.isoDateTime == (if "x-amz-date" in request.fields then request.fields["x-amz-date"] else now)
        && keys.scope == g.date + "/" + g.region + "/" + g.module_ + "/" + g.requestVersion
        && (keys.dateTime, keys.region, keys.module_) == (g.date, g.region, g.module_)
        && (keys.requestVersion, keys.signedHeaders, keys.signature) == (g.requestVersion, g.signedHeaders, g.signature)
  {
    hide Search, Split, ToLower;
    LowerUnchanged(AMZ_DATE);
    LowerUnchanged(AUTHORIZATION);
    var header := request.GetHeaderValue(AUTHORIZATION);
    var signingVersion := Split(header, ' ')[0];
    var what := Search(header);
    if what.None? { return NO_KEYS; }
    var isoDateTime := if request.HasHeader(AMZ_DATE) then request.GetHeaderValue(AMZ_DATE) else now;
    return KeysOf(what.value, signingVersion, secret, isoDateTime);
  }

  method VerifySignature(c: Crypto, request: Request, secret: Bytes, now: Bytes) returns (result: Option<bool>)
    ensures result == Verified(c, request.Value(), secret, now)
  {
    hide CanonicalRequest, Signature, StringToSign, ParsedKeys;
    var keys := GetAuthorizationKeys(request, secret, now);
    var canonicalRequest := GetCanonicalRequest(c, request, keys);
    if canonicalRequest.None? { return None; }
    var signature := Signature(c, keys, StringToSign(c, canonicalRequest.value, keys));
    return Some(Equals(signature, keys.signature));
  }

  // ---- the printed header parses back to what was signed ----

  lemma AuthorizationParses(accessKeyId: Bytes, keys: Keys, signature: Bytes)
    requires Printable(accessKeyId, keys.dateTime, keys.region, keys.module_) && ',' !in signature
    ensures Search(Authorization(accessKeyId, keys, signature))
         == Some(Groups(accessKeyId, keys.dateTime, keys.region, keys.module_, AWS4_REQUEST, keys.signedHeaders,
                        signature))
    ensures Split(Authorization(accessKeyId, keys, signature), ' ')[0] == ALGORITHM
  {
    hide MatchCredential, MatchSigned, Search, Credential, Printable, Split;
    var cred := Credential(accessKeyId, keys.dateTime, keys.region, keys.module_);
    var tail := ",SignedHeaders=" + keys.signedHeaders + ",Signature=" + signature;
    var header := Authorization(accessKeyId, keys, signature);
    assert header == ALGORITHM + " " + (cred + tail) by {
      assert ALGORITHM + " " + cred + tail == ALGORITHM + " " + (cred + tail);
    }
    CredentialParses(accessKeyId, keys.dateTime, keys.region, keys.module_, tail);
    SignedParses(keys.signedHeaders, signature);
    SearchSkips(ALGORITHM + " ", cred + tail);
    SplitAt(ALGORITHM, ' ', cred + tail);
  }

  // ---- verification accepts what signing produced ----

  predicate Names(signedHeaders: Bytes, name: Bytes) {
    exists h <- Split(signedHeaders, ';') :: ToLower(h) == name
  }

  lemma {:induction false} OtherLinesUnchanged(fields: map<Bytes, Bytes>, names: seq<Bytes>, name: Bytes, value: Bytes)
    requires forall h <- names :: ToLower(h) != name
    ensures HeaderLines(fields[name := value], names) == HeaderLines(fields, names)
  {
    if names != [] {
      assert names[0] in names;
      OtherLinesUnchanged(fields, names[1..], name, value);
    }
  }

  // Only secret, date, region, module, version and signed headers of the keys go into the signature, and only the
  // headers they name.
  lemma SameSignature(c: Crypto, m: Message, authorization: Bytes, keys: Keys, signature: Bytes)
    requires !Names(keys.signedHeaders, AUTHORIZATION)
    ensures SignatureOf(c, m.(fields := m.fields[AUTHORIZATION := authorization]), keys.(signature := signature))
         == SignatureOf(c, m, keys)
  {
    hide Split, ToLower, HeaderLines, CanonicalUri;
    OtherLinesUnchanged(m.fields, Split(keys.signedHeaders, ';'), AUTHORIZATION, authorization);
  }

  // The clock of the verifier plays no part, and neither do commas in the list of signed headers.
  lemma VerifyAcceptsSigned(c: Crypto, m: Message, cfg: Config, clock: Clock, module_: Bytes, contentType: Bytes,
                            signedHeaders: Bytes, payload: Bytes, now: Bytes)
    requires cfg.secretAccessKey != "" && clock.header == clock.signed
    requires Printable(cfg.accessKeyId, clock.date, cfg.region, module_)
    requires !Names(signedHeaders, AUTHORIZATION)
    ensures var r := Signed(c, m, cfg, clock, module_, contentType, signedHeaders, payload);
      r.Some? ==> Verified(c, r.value, cfg.secretAccessKey, now) == Some(true)
  {
    hide SignatureOf, Search, Split, Authorization, Printable, Names;
    var keys := SigningKeys(cfg, clock, module_, signedHeaders);
    var p := Prepared(c, m, cfg, clock, contentType, payload);
    var s := SignatureOf(c, p, keys);
    if s.Some? {
      var signature := s.value;
      SignatureText(c, p, keys);
      var authorization := Authorization(cfg.accessKeyId, keys, signature);
      AuthorizationParses(cfg.accessKeyId, keys, signature);
      SameSignature(c, p, authorization, keys, signature);
      var r := p.(fields := p.fields[AUTHORIZATION := authorization]);
      assert r.fields[AMZ_DATE] == clock.header;
      assert ParsedKeys(r, cfg.secretAccessKey, now) == keys.(signature := signature);
    }
  }

  lemma SignatureText(c: Crypto, m: Message, keys: Keys)
    ensures SignatureOf(c, m, keys).Some? ==>
      SignatureOf(c, m, keys).value != "" && ',' !in SignatureOf(c, m, keys).value
  {
    hide CanonicalRequest, StringToSign;
  }
}
