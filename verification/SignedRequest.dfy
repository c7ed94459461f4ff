// What a signature stands for: the texts that are hashed, and the requests that one signature fits.
module SignedRequest {
  import opened AuthorizationRegex
  import opened AwsUtils
  import opened Bytes
  import opened StringUtils
  import opened Wrappers
  import HttpUtils

  // ---- lines ----

  predicate SingleLine(s: Bytes) {
    '\n' !in s
  }

  lemma LineThenRest(a: Bytes, x: Bytes)
    ensures var s := a + "\n" + x;
      && s[|a|] == '\n' && s[..|a|] == a && s[|a| + 1..] == x
      && (SingleLine(a) ==> forall i | 0 <= i < |a| :: s[i] != '\n')
      && (SingleLine(x) ==> forall i | |a| < i < |s| :: s[i] != '\n')
  {
    var s := a + "\n" + x;
    assert forall i | 0 <= i < |a| :: s[i] == a[i] && a[i] in a;
    assert forall i | |a| < i < |s| :: s[i] == x[i - |a| - 1] && x[i - |a| - 1] in x;
  }

  lemma FirstLines(a: Bytes, x: Bytes, b: Bytes, y: Bytes)
    requires SingleLine(a) && SingleLine(b) && a + "\n" + x == b + "\n" + y
    ensures a == b && x == y
  {
    hide SingleLine;
    LineThenRest(a, x);
    LineThenRest(b, y);
  }

  lemma LastLines(a: Bytes, x: Bytes, b: Bytes, y: Bytes)
    requires SingleLine(x) && SingleLine(y) && a + "\n" + x == b + "\n" + y
    ensures a == b && x == y
  {
    hide SingleLine;
    LineThenRest(a, x);
    LineThenRest(b, y);
  }

  lemma {:induction false} PercentEncodedIsSingleLine(s: Bytes, slash: bool)
    requires PercentEncoded(s, slash)
    ensures SingleLine(s)
    decreases |s|
  {
    if s != "" {
      var n := if s[0] == '%' then 3 else 1;
      PercentEncodedIsSingleLine(s[n..], slash);
      assert s == s[..n] + s[n..];
    }
  }

  lemma EncodedIsSingleLine(s: Bytes, encodeSlash: bool)
    ensures SingleLine(UrlEncoded(s, encodeSlash))
  {
    EncodedForm(s, encodeSlash);
    PercentEncodedIsSingleLine(UrlEncoded(s, encodeSlash), !encodeSlash);
  }

  lemma UriIsSingleLine(target: Bytes)
    ensures SingleLine(CanonicalUri(target))
  {
    EncodedIsSingleLine(CutAtQuestion(target), false);
  }

  lemma {:induction false} JoinIsSingleLine(pieces: seq<Bytes>)
    requires forall p <- pieces :: SingleLine(p)
    ensures SingleLine(Join(pieces, "&"))
  {
    if pieces != [] {
      assert pieces[0] in pieces;
      JoinIsSingleLine(pieces[1..]);
    }
  }

  lemma QueryIsSingleLine(uri: Bytes)
    ensures var q := HttpUtils.CanonicalOf(uri); q.Some? ==> SingleLine(q.value)
  {
    hide UrlEncoded, Join, SingleLine, HttpUtils.QueryParameters, HttpUtils.SortedPairs;
    var m := HttpUtils.QueryParameters(uri);
    if m.Some? {
      var pairs := HttpUtils.SortedPairs(m.value);
      var pieces := HttpUtils.EncodedPairs(pairs);
      forall p <- pieces ensures SingleLine(p) {
        var i :| 0 <= i < |pieces| && pieces[i] == p;
        PairIsSingleLine(pairs[i]);
      }
      JoinIsSingleLine(pieces);
    }
  }

  lemma PairIsSingleLine(p: HttpUtils.Pair)
    ensures SingleLine(HttpUtils.EncodedPair(p))
  {
    hide UrlEncoded;
    EncodedIsSingleLine(p.key, true);
    EncodedIsSingleLine(p.value, true);
  }

  // Equal canonical requests with the same signed headers are equal part by part.
  lemma CanonicalLinesDetermine(v: Bytes, u: Bytes, q: Bytes, h: Bytes, p: Bytes,
                                v': Bytes, u': Bytes, q': Bytes, h': Bytes, p': Bytes, signed: Bytes)
    requires SingleLine(v) && SingleLine(u) && SingleLine(q) && SingleLine(p)
    requires SingleLine(v') && SingleLine(u') && SingleLine(q') && SingleLine(p')
    requires CanonicalLines(v, u, q, h, signed, p) == CanonicalLines(v', u', q', h', signed, p')
    ensures v == v' && u == u' && q == q' && h == h' && p == p'
  {
    hide SingleLine;
    LinesGrouped(v, u, q, h, signed, p);
    LinesGrouped(v', u', q', h', signed, p');
    var r, r' := h + "\n" + signed + "\n" + p, h' + "\n" + signed + "\n" + p';
    FirstLines(v, u + "\n" + (q + "\n" + r), v', u' + "\n" + (q' + "\n" + r'));
    FirstLines(u, q + "\n" + r, u', q' + "\n" + r');
    FirstLines(q, r, q', r');
    LastLines(h + "\n" + signed, p, h' + "\n" + signed, p');
    SameEnd(h, h', signed);
  }

  lemma LinesGrouped(v: Bytes, u: Bytes, q: Bytes, h: Bytes, signed: Bytes, p: Bytes)
    ensures CanonicalLines(v, u, q, h, signed, p)
         == v + "\n" + (u + "\n" + (q + "\n" + (h + "\n" + signed + "\n" + p)))
  {
    var r := h + "\n" + signed + "\n" + p;
    assert v + "\n" + u + "\n" + q + "\n" + h + "\n" + signed + "\n" + p == v + "\n" + u + "\n" + q + "\n" + r;
    assert v + "\n" + u + "\n" + (q + "\n" + r) == v + "\n" + (u + "\n" + (q + "\n" + r));
  }

  lemma SameEnd(a: Bytes, b: Bytes, end: Bytes)
    requires a + "\n" + end == b + "\n" + end
    ensures a == b
  {
    assert (a + "\n" + end)[..|a|] == a && (b + "\n" + end)[..|b|] == b;
  }

  lemma {:induction false} HexInjective(s: Bytes, t: Bytes)
    requires HexEncode(s) == HexEncode(t)
    ensures s == t
  {
    if s != "" && t != "" {
      var a, b := HexEncode(s), HexEncode(t);
      assert a[0] == b[0] && a[1] == b[1];
      assert s[0] as int / 16 == t[0] as int / 16 && s[0] as int % 16 == t[0] as int % 16;
      assert a[2..] == HexEncode(s[1..]) && b[2..] == HexEncode(t[1..]);
      HexInjective(s[1..], t[1..]);
      assert s == [s[0]] + s[1..] && t == [t[0]] + t[1..];
    }
  }

  // ---- the path ----

  function Rooted(path: Bytes): (r: Bytes)
    ensures r == path || r == "/" + path
  {
    if "/" <= path then path else "/" + path
  }

  // The path is the text in front of the first '?', encoded from its first slash on; a missing one is added.
  lemma UriIsEncodedPath(target: Bytes)
    ensures CanonicalUri(target) == UrlEncoded(Rooted(CutAtQuestion(target)), false)
  {
    var path := CutAtQuestion(target);
    if path == "" || path[0] != '/' {
      assert ("/" + path)[0] == '/' && ("/" + path)[1..] == path;
      if path != "" {
        assert EncodeByte(path[0], false)[0] != '/';
        assert UrlEncoded(path, false)[0] == EncodeByte(path[0], false)[0];
      }
    } else {
      assert UrlEncoded(path, false)[0] == '/';
    }
  }

  lemma SameUri(s: Bytes, t: Bytes)
    ensures CanonicalUri(s) == CanonicalUri(t) <==> Rooted(CutAtQuestion(s)) == Rooted(CutAtQuestion(t))
  {
    hide Rooted, CutAtQuestion, CanonicalUri;
    UriIsEncodedPath(s);
    UriIsEncodedPath(t);
    if CanonicalUri(s) == CanonicalUri(t) {
      UrlEncodeInjective(Rooted(CutAtQuestion(s)), Rooted(CutAtQuestion(t)), false);
    }
  }

  // ---- the headers ----

  // A parser of HTTP hands out field names without a colon and values without a line feed.
  predicate WellFormed(fields: map<Bytes, Bytes>) {
    forall k <- fields :: ':' !in k && SingleLine(fields[k])
  }

  // Present in both or in neither, with equal values up to white space.
  predicate SameField(f: map<Bytes, Bytes>, g: map<Bytes, Bytes>, key: Bytes) {
    && (key in f <==> key in g)
    && (key in f && key in g ==> Normalized(f[key]) == Normalized(g[key]))
  }

  predicate SameFields(f: map<Bytes, Bytes>, g: map<Bytes, Bytes>, names: seq<Bytes>) {
    forall h <- names :: SameField(f, g, ToLower(h))
  }

  lemma {:induction false} CollapsedIsSingleLine(s: Bytes, prevSpace: bool)
    requires SingleLine(s)
    ensures SingleLine(Collapsed(s, prevSpace))
  {
    if s != "" { CollapsedIsSingleLine(s[1..], s[0] == ' '); }
  }

  lemma NormalizedIsSingleLine(value: Bytes)
    requires SingleLine(value)
    ensures SingleLine(Normalized(value))
  {
    hide TrimLeft, TrimRight, Collapsed, SingleLine;
    var r := TrimRight(value);
    TrimRightShape(value);
    TrimLeftShape(r);
    PartIsSingleLine(value, 0, |r|);
    PartIsSingleLine(r, |r| - |Trimmed(value)|, |r|);
    CollapsedIsSingleLine(Trimmed(value), false);
  }

  lemma PartIsSingleLine(s: Bytes, i: nat, j: nat)
    requires SingleLine(s) && i <= j <= |s|
    ensures SingleLine(s[i..j])
  {
    forall k | 0 <= k < j - i ensures s[i..j][k] != '\n' { assert s[i + k] in s; }
  }

  lemma FirstKey(key: Bytes, x: Bytes, key': Bytes, y: Bytes)
    requires ':' !in key && ':' !in key' && key + ":" + x == key' + ":" + y
    ensures key == key' && x == y
  {
    var s, t := key + ":" + x, key' + ":" + y;
    assert s[|key|] == ':' && t[|key'|] == ':';
    assert forall i | 0 <= i < |key| :: s[i] == key[i] && key[i] in key;
    assert forall i | 0 <= i < |key'| :: t[i] == key'[i] && key'[i] in key';
    assert s[..|key|] == key && t[..|key'|] == key' && s[|key| + 1..] == x && t[|key'| + 1..] == y;
  }

  lemma LineThen(fields: map<Bytes, Bytes>, names: seq<Bytes>)
    requires names != []
    ensures var key, rest := ToLower(names[0]), HeaderLines(fields, names[1..]);
      HeaderLines(fields, names) == if key in fields then key + ":" + (Normalized(fields[key]) + "\n" + rest) else rest
  {
    hide ToLower, Normalized;
    var key, rest := ToLower(names[0]), HeaderLines(fields, names[1..]);
    if key in fields {
      assert key + ":" + Normalized(fields[key]) + "\n" + rest == key + ":" + (Normalized(fields[key]) + "\n" + rest);
    } else {
      assert "" + rest == rest;
    }
  }

  // The lines of a request without a field do not start with that field.
  lemma {:induction false} OtherKeyFirst(fields: map<Bytes, Bytes>, names: seq<Bytes>, key: Bytes, x: Bytes)
    requires WellFormed(fields) && key !in fields && ':' !in key
    ensures HeaderLines(fields, names) != key + ":" + x
  {
    hide ToLower, Normalized, HeaderLine;
    if names != [] {
      LineThen(fields, names);
      OtherKeyFirst(fields, names[1..], key, x);
      var k := ToLower(names[0]);
      if k in fields && HeaderLines(fields, names) == key + ":" + x {
        FirstKey(k, Normalized(fields[k]) + "\n" + HeaderLines(fields, names[1..]), key, x);
      }
    }
  }

  lemma {:induction false} LinesDetermineFields(f: map<Bytes, Bytes>, g: map<Bytes, Bytes>, names: seq<Bytes>)
    requires WellFormed(f) && WellFormed(g) && HeaderLines(f, names) == HeaderLines(g, names)
    ensures SameFields(f, g, names)
  {
    hide ToLower, Normalized, HeaderLine, HeaderLines, SingleLine;
    if names != [] {
      LineThen(f, names);
      LineThen(g, names);
      var k, x, y := ToLower(names[0]), HeaderLines(f, names[1..]), HeaderLines(g, names[1..]);
      if k in f && k in g {
        FirstKey(k, Normalized(f[k]) + "\n" + x, k, Normalized(g[k]) + "\n" + y);
        NormalizedIsSingleLine(f[k]);
        NormalizedIsSingleLine(g[k]);
        FirstLines(Normalized(f[k]), x, Normalized(g[k]), y);
      } else if k in f {
        OtherKeyFirst(g, names[1..], k, Normalized(f[k]) + "\n" + x);
      } else if k in g {
        OtherKeyFirst(f, names[1..], k, Normalized(g[k]) + "\n" + y);
      }
      LinesDetermineFields(f, g, names[1..]);
    }
  }

  lemma {:induction false} SameFieldsSameLines(f: map<Bytes, Bytes>, g: map<Bytes, Bytes>, names: seq<Bytes>)
    requires SameFields(f, g, names)
    ensures HeaderLines(f, names) == HeaderLines(g, names)
  {
    hide ToLower, Normalized;
    if names != [] {
      assert names[0] in names;
      SameFieldsSameLines(f, g, names[1..]);
    }
  }

  // ---- a signature binds the request ----

  // The signed hash of the payload: what the header says, or the hash of the body.
  predicate SamePayload(c: Crypto, m: Message, n: Message) {
    var header := "x-amz-content-sha256";
    if header in m.fields && header in n.fields then m.fields[header] == n.fields[header]
    else if header in m.fields then m.fields[header] == c.sha256(n.body)
    else if header in n.fields then c.sha256(m.body) == n.fields[header]
    else c.sha256(m.body) == c.sha256(n.body)
  }

  // What one signature says about two requests, in terms of the requests themselves.
  predicate SameSigned(c: Crypto, m: Message, n: Message, signedHeaders: Bytes) {
    && m.verb == n.verb
    && Rooted(CutAtQuestion(m.target)) == Rooted(CutAtQuestion(n.target))
    && HttpUtils.QueryParameters(m.target) == HttpUtils.QueryParameters(n.target)
    && SameFields(m.fields, n.fields, Split(signedHeaders, ';'))
    && SamePayload(c, m, n)
  }

  // A request as a parser of HTTP gives it, and a hash of one line.
  predicate Parsed(c: Crypto, m: Message) {
    SingleLine(m.verb) && WellFormed(m.fields) && SingleLine(c.sha256(m.body))
  }

  // Canonical requests are equal exactly when the requests agree on all that is signed.
  lemma CanonicalRequestIffSame(c: Crypto, m: Message, n: Message, keys: Keys)
    requires Parsed(c, m) && Parsed(c, n)
    requires CanonicalRequest(c, m, keys).Some? && CanonicalRequest(c, n, keys).Some?
    ensures CanonicalRequest(c, m, keys) == CanonicalRequest(c, n, keys) <==> SameSigned(c, m, n, keys.signedHeaders)
  {
    hide CanonicalUri, HeaderLines, HttpUtils.CanonicalOf, HttpUtils.QueryParameters, CanonicalLines, SingleLine, Split,
      Rooted, SameFields;
    HttpUtils.CanonicalQueryBinds(m.target, n.target);
    SameUri(m.target, n.target);
    var names := Split(keys.signedHeaders, ';');
    if SameSigned(c, m, n, keys.signedHeaders) {
      SameFieldsSameLines(m.fields, n.fields, names);
    }
    if CanonicalRequest(c, m, keys) == CanonicalRequest(c, n, keys) {
      UriIsSingleLine(m.target);
      UriIsSingleLine(n.target);
      QueryIsSingleLine(m.target);
      QueryIsSingleLine(n.target);
      var q, q' := HttpUtils.CanonicalOf(m.target).value, HttpUtils.CanonicalOf(n.target).value;
      CanonicalLinesDetermine(m.verb, CanonicalUri(m.target), q, CanonicalHeaders(m, keys), PayloadHash(c, m),
                              n.verb, CanonicalUri(n.target), q', CanonicalHeaders(n, keys), PayloadHash(c, n),
                              keys.signedHeaders);
      LinesDetermineFields(m.fields, n.fields, names);
    }
  }

  // Two different texts with one hash, or with one keyed hash under the signing key.
  predicate Collision(c: Crypto, m: Message, n: Message, keys: Keys) {
    var r, r' := CanonicalRequest(c, m, keys), CanonicalRequest(c, n, keys);
    && r.Some? && r'.Some?
    && var t, t' := StringToSign(c, r.value, keys), StringToSign(c, r'.value, keys);
      || (r.value != r'.value && c.sha256(r.value) == c.sha256(r'.value))
      || (t != t' && c.hmac(SigningKey(c, keys), t) == c.hmac(SigningKey(c, keys), t'))
  }

  // Two requests have one signature exactly when they agree on all that is signed, or show a hash collision.
  lemma SameSignatureIffSame(c: Crypto, m: Message, n: Message, keys: Keys)
    requires Parsed(c, m) && Parsed(c, n)
    requires SignatureOf(c, m, keys).Some? && SignatureOf(c, n, keys).Some?
    ensures SignatureOf(c, m, keys) == SignatureOf(c, n, keys) <==>
      SameSigned(c, m, n, keys.signedHeaders) || Collision(c, m, n, keys)
  {
    hide SigningKey, HexEncode, CanonicalRequest, SameSigned, Parsed;
    CanonicalRequestIffSame(c, m, n, keys);
    var r, r' := CanonicalRequest(c, m, keys).value, CanonicalRequest(c, n, keys).value;
    var t, t' := StringToSign(c, r, keys), StringToSign(c, r', keys);
    if SignatureOf(c, m, keys) == SignatureOf(c, n, keys) {
      HexInjective(c.hmac(SigningKey(c, keys), t), c.hmac(SigningKey(c, keys), t'));
      if t == t' { SameHash(c, r, r', keys); }
    }
  }

  // Two requests can only both be accepted under one set of keys, signature included, if they agree on all that is
  // signed or show a hash collision, and whatever so agrees with an accepted request is accepted too.
  lemma SignatureBindsRequest(c: Crypto, m: Message, n: Message, secret: Bytes, now: Bytes)
    requires Parsed(c, m) && Parsed(c, n) && ParsedKeys(m, secret, now) == ParsedKeys(n, secret, now)
    requires Verified(c, m, secret, now) == Some(true) && Verified(c, n, secret, now).Some?
    ensures var keys := ParsedKeys(m, secret, now);
      Verified(c, n, secret, now) == Some(true) <==>
        SameSigned(c, m, n, keys.signedHeaders) || Collision(c, m, n, keys)
  {
    hide SignatureOf, ParsedKeys, SameSigned, Collision, Parsed;
    SameSignatureIffSame(c, m, n, ParsedKeys(m, secret, now));
  }

  lemma SameHash(c: Crypto, r: Bytes, r': Bytes, keys: Keys)
    requires StringToSign(c, r, keys) == StringToSign(c, r', keys)
    ensures c.sha256(r) == c.sha256(r')
  {
    var head := keys.signingVersion + "\n" + keys.isoDateTime + "\n" + keys.scope + "\n";
    assert (head + c.sha256(r))[|head|..] == c.sha256(r) && (head + c.sha256(r'))[|head|..] == c.sha256(r');
  }

  // ---- the texts of Signature Version 4, written out ----

  // A header that is there adds one line behind those of the names in front of it, and no other header adds anything.
  lemma {:induction false} LineByLine(fields: map<Bytes, Bytes>, names: seq<Bytes>, h: Bytes)
    ensures HeaderLines(fields, []) == ""
    ensures HeaderLines(fields, names + [h]) == HeaderLines(fields, names) +
      if ToLower(h) in fields then ToLower(h) + ":" + Normalized(fields[ToLower(h)]) + "\n" else ""
  {
    hide ToLower, Normalized;
    if names == [] {
      assert names + [h] == [h];
      assert HeaderLines(fields, [h]) == HeaderLine(fields, h) + HeaderLines(fields, []);
      assert HeaderLine(fields, h) + "" == "" + HeaderLine(fields, h);
    } else {
      assert (names + [h])[1..] == names[1..] + [h];
      LineByLine(fields, names[1..], h);
      var a, b := HeaderLine(fields, names[0]), HeaderLines(fields, names[1..]);
      assert a + (b + HeaderLine(fields, h)) == a + b + HeaderLine(fields, h);
    }
  }

  lemma CanonicalText(c: Crypto, m: Message, keys: Keys)
    ensures CanonicalRequest(c, m, keys).Some? <==> HttpUtils.CanonicalOf(m.target).Some?
    ensures CanonicalRequest(c, m, keys).Some? ==>
      CanonicalRequest(c, m, keys).value
        == m.verb + "\n" + UrlEncoded(Rooted(CutAtQuestion(m.target)), false) + "\n"
           + HttpUtils.CanonicalOf(m.target).value + "\n" + HeaderLines(m.fields, Split(keys.signedHeaders, ';')) + "\n"
           + keys.signedHeaders + "\n"
           + if "x-amz-content-sha256" in m.fields then m.fields["x-amz-content-sha256"] else c.sha256(m.body)
  {
    hide CanonicalUri, CutAtQuestion, Rooted, UrlEncoded, HttpUtils.CanonicalOf, Split, HeaderLines;
    UriIsEncodedPath(m.target);
  }

  // The chain of keys and the string to sign.
  lemma SignatureIsHmac(c: Crypto, keys: Keys, canonical: Bytes)
    ensures Signature(c, keys, StringToSign(c, canonical, keys)) == HexEncode(c.hmac(
      c.hmac(c.hmac(c.hmac(c.hmac("AWS4" + keys.secretAccessKey, keys.dateTime), keys.region), keys.module_),
             keys.requestVersion),
      keys.signingVersion + "\n" + keys.isoDateTime + "\n" + keys.scope + "\n" + c.sha256(canonical)))
  {
    hide HexEncode;
    assert StringToSign(c, canonical, keys)
        == keys.signingVersion + "\n" + keys.isoDateTime + "\n" + keys.scope + "\n" + c.sha256(canonical);
  }

  lemma PreparedFields(c: Crypto, m: Message, cfg: Config, clock: Clock, contentType: Bytes, payload: Bytes)
    ensures Prepared(c, m, cfg, clock, contentType, payload)
      == m.(fields := m.fields["host" := cfg.host]["content-type" := contentType]
                              ["x-amz-content-sha256" := c.sha256(payload)]["x-amz-date" := clock.header]
                              ["x-amz-security-token" := cfg.secretAccessKey])
  {
  }

  // The keys that signing starts from: the date and the string to sign come from readings of the clock of their own.
  lemma SigningKeysText(cfg: Config, clock: Clock, module_: Bytes, signedHeaders: Bytes)
    ensures SigningKeys(cfg, clock, module_, signedHeaders)
      == Keys("AWS4-HMAC-SHA256", cfg.secretAccessKey, clock.date, clock.signed,
              clock.date + "/" + cfg.region + "/" + module_ + "/" + "aws4_request", cfg.region, module_,
              "aws4_request", signedHeaders, "")
  {
  }

  // The text of the authorization header.
  lemma AuthorizationText(accessKeyId: Bytes, keys: Keys, signature: Bytes)
    ensures Authorization(accessKeyId, keys, signature)
      == "AWS4-HMAC-SHA256 Credential=" + accessKeyId + "/" + keys.dateTime + "/" + keys.region + "/" + keys.module_
         + "/aws4_request" + ",SignedHeaders=" + keys.signedHeaders + ",Signature=" + signature
  {
    assert ALGORITHM + " " + Credential(accessKeyId, keys.dateTime, keys.region, keys.module_)
        == "AWS4-HMAC-SHA256 Credential=" + accessKeyId + "/" + keys.dateTime + "/" + keys.region + "/" + keys.module_
           + "/aws4_request";
  }

  // Signing sets one more header than those it signs with, and fails when the target cannot be decoded.
  lemma SignedFields(c: Crypto, m: Message, cfg: Config, clock: Clock, module_: Bytes, contentType: Bytes,
                     signedHeaders: Bytes, payload: Bytes)
    ensures var r := Signed(c, m, cfg, clock, module_, contentType, signedHeaders, payload);
      var keys := SigningKeys(cfg, clock, module_, signedHeaders);
      var p := Prepared(c, m, cfg, clock, contentType, payload);
      && (r.Some? <==> HttpUtils.CanonicalOf(m.target).Some?)
      && (r.Some? ==>
           && SignatureOf(c, p, keys).Some?
           && r.value.fields["authorization"] == Authorization(cfg.accessKeyId, keys, SignatureOf(c, p, keys).value)
           && r.value == p.(fields := r.value.fields)
           && r.value.fields - {"authorization"} == p.fields - {"authorization"})
  {
    hide Signature, HttpUtils.CanonicalOf, CanonicalLines, Authorization;
  }
}
