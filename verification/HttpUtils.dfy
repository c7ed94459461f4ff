// Query parameters: what a client writes, what GetQueryParameters reads, and the canonical form that is signed.
module HttpUtils {
  import opened Bytes
  import opened StringUtils
  import opened Wrappers

  type Params = map<Bytes, Bytes>

  datatype Pair = Pair(key: Bytes, value: Bytes)

  // ---- what GetQueryParameters reads ----

  function ReadPair(piece: Bytes): Pair {
    var parts := Split(piece, '=');
    Pair(parts[0], if |parts| == 2 then parts[1] else "")
  }

  // Later pairs overwrite earlier ones, as assignment through operator[] does.
  function Filled(pairs: seq<Pair>): Params {
    if pairs == [] then map[]
    else Filled(pairs[..|pairs| - 1])[pairs[|pairs| - 1].key := pairs[|pairs| - 1].value]
  }

  function ReadPairs(pieces: seq<Bytes>): seq<Pair> {
    seq(|pieces|, i requires 0 <= i < |pieces| => ReadPair(pieces[i]))
  }

  function AfterQuestion(s: Bytes): Bytes {
    if s == "" then "" else if s[0] == '?' then s[1..] else AfterQuestion(s[1..])
  }

  function ReadQuery(q: Bytes): Params {
    if '&' !in q && '=' !in q then (if q == "" then map[] else map[q := ""])
    else Filled(ReadPairs(Split(q, '&')))
  }

  // None stands for the exception that decoding a malformed triplet throws.
  function QueryParameters(uri: Bytes): Option<Params> {
    if uri == "/" || '?' !in uri then Some(map[])
    else match UrlDecode(uri) case None => None case Some(d) => Some(ReadQuery(AfterQuestion(d)))
  }

  method GetQueryParameters(uri: Bytes) returns (r: Option<Params>)
    ensures r == QueryParameters(uri)
  {
    if uri == "/" { return Some(map[]); }
    if '?' !in uri { return Some(map[]); }
    var queryParameters: Params := map[];
    var decoded := UrlDecode(uri);
    if decoded.None? { return None; }
    var localUri := AfterQuestion(decoded.value);
    if '&' !in localUri && '=' !in localUri {
      if localUri == "" { return Some(map[]); }
      return Some(map[localUri := ""]);
    }
    var pieces := Split(localUri, '&');
    for i := 0 to |pieces|
      invariant queryParameters == Filled(ReadPairs(pieces)[..i])
    {
      assert ReadPairs(pieces)[..i + 1][..i] == ReadPairs(pieces)[..i];
      var parts := Split(pieces[i], '=');
      if |parts| == 2 {
        queryParameters := queryParameters[parts[0] := parts[1]];
      } else {
        queryParameters := queryParameters[parts[0] := ""];
      }
    }
    assert ReadPairs(pieces)[..|pieces|] == ReadPairs(pieces);
    return Some(queryParameters);
  }

  // ---- the query a client writes ----

  function EncodedPair(p: Pair): Bytes {
    UrlEncoded(p.key, true) + "=" + UrlEncoded(p.value, true)
  }

  function RawPair(p: Pair): Bytes {
    p.key + "=" + p.value
  }

  function EncodedPairs(pairs: seq<Pair>): seq<Bytes> {
    seq(|pairs|, i requires 0 <= i < |pairs| => EncodedPair(pairs[i]))
  }

  function RawPairs(pairs: seq<Pair>): seq<Bytes> {
    seq(|pairs|, i requires 0 <= i < |pairs| => RawPair(pairs[i]))
  }

  function Query(pairs: seq<Pair>): Bytes {
    Join(EncodedPairs(pairs), "&")
  }

  predicate Clean(s: Bytes) {
    '&' !in s && '=' !in s
  }

  predicate CleanPairs(pairs: seq<Pair>) {
    forall p <- pairs :: Clean(p.key) && Clean(p.value)
  }

  predicate DistinctKeys(pairs: seq<Pair>) {
    forall i, j | 0 <= i < j < |pairs| :: pairs[i].key != pairs[j].key
  }

  // A path whose decoded text has no question mark.
  predicate PlainPath(path: Bytes) {
    UrlDecode(path).Some? && '?' !in UrlDecode(path).value
  }

  lemma DecodeEncodedPair(p: Pair)
    ensures UrlDecode(EncodedPair(p)) == Some(RawPair(p))
  {
    hide UrlDecode, UrlEncoded;
    var k, v := UrlEncoded(p.key, true), UrlEncoded(p.value, true);
    UrlDecodeInvertsEncode(p.key, true);
    UrlDecodeInvertsEncode(p.value, true);
    DecodeOne('=', v);
    assert k + "=" + v == k + ("=" + v);
    DecodeConcat(k, "=" + v);
    assert p.key + ("=" + p.value) == RawPair(p);
  }

  lemma DecodeOne(c: Byte, rest: Bytes)
    requires c != '%' && c != '+'
    ensures UrlDecode([c] + rest) == Consed(c, UrlDecode(rest))
  {
    assert ([c] + rest)[1..] == rest;
  }

  lemma {:induction false} DecodeQuery(pairs: seq<Pair>)
    ensures UrlDecode(Query(pairs)) == Some(Join(RawPairs(pairs), "&"))
  {
    hide UrlDecode;
    if pairs == [] {
      DecodeEmpty();
    } else {
      DecodeEncodedPair(pairs[0]);
      assert EncodedPairs(pairs)[1..] == EncodedPairs(pairs[1..]);
      assert RawPairs(pairs)[1..] == RawPairs(pairs[1..]);
      if |pairs| > 1 {
        var e, q := EncodedPair(pairs[0]), Query(pairs[1..]);
        var r := Join(RawPairs(pairs[1..]), "&");
        DecodeQuery(pairs[1..]);
        DecodeOne('&', q);
        assert e + "&" + q == e + ("&" + q);
        DecodeConcat(e, "&" + q);
        assert RawPair(pairs[0]) + ("&" + r) == RawPair(pairs[0]) + "&" + r;
      }
    }
  }

  lemma DecodeEmpty()
    ensures UrlDecode("") == Some("")
  {
  }

  lemma {:induction false} QuestionAfter(p: Bytes, q: Bytes)
    requires '?' !in p
    ensures AfterQuestion(p + "?" + q) == q
  {
    var w := p + "?" + q;
    if p == "" {
      assert w == "?" + q && w[1..] == q;
    } else {
      assert w[1..] == p[1..] + "?" + q;
      QuestionAfter(p[1..], q);
    }
  }

  lemma RequestReads(path: Bytes, pairs: seq<Pair>)
    requires PlainPath(path)
    ensures QueryParameters(path + "?" + Query(pairs)) == Some(ReadQuery(Join(RawPairs(pairs), "&")))
  {
    hide UrlDecode;
    var q := Query(pairs);
    var r := Join(RawPairs(pairs), "&");
    DecodeQuery(pairs);
    DecodeOne('?', q);
    assert path + "?" + q == path + ("?" + q);
    DecodeConcat(path, "?" + q);
    var d := UrlDecode(path).value;
    assert d + ("?" + r) == d + "?" + r;
    QuestionAfter(d, r);
    assert '?' in path + "?" + q && path + "?" + q != "/";
  }

  lemma {:induction false} EqualsInJoin(v: seq<Bytes>)
    requires v != [] && forall s <- v :: '=' in s
    ensures '=' in Join(v, "&")
  {
    assert v[0] in v;
  }

  lemma CleanQueryRecovered(pairs: seq<Pair>)
    requires CleanPairs(pairs)
    ensures ReadQuery(Join(RawPairs(pairs), "&")) == Filled(pairs)
  {
    hide Split, Join, RawPair, ReadPair, Clean, Filled;
    if pairs == [] {
      NoPairs();
      assert RawPairs(pairs) == [];
    } else {
      var raw := RawPairs(pairs);
      forall s <- raw ensures '=' in s && '&' !in s {
        var i :| 0 <= i < |raw| && raw[i] == s;
        assert pairs[i] in pairs;
        RawPairShape(pairs[i]);
      }
      EqualsInJoin(raw);
      SplitInvertsJoin(raw, '&');
      forall i | 0 <= i < |raw| ensures ReadPair(raw[i]) == pairs[i] {
        assert pairs[i] in pairs;
        RawPairShape(pairs[i]);
      }
      assert ReadPairs(raw) == pairs;
    }
  }

  lemma NoPairs()
    ensures Join([], "&") == "" && Filled([]) == map[]
  {
  }

  lemma RawPairShape(p: Pair)
    requires Clean(p.key) && Clean(p.value)
    ensures '=' in RawPair(p) && '&' !in RawPair(p) && ReadPair(RawPair(p)) == p
  {
    assert RawPair(p)[|p.key|] == '=';
    SplitAt(p.key, '=', p.value);
    SplitAt(p.value, '=', "");
  }

  lemma {:induction false} FilledPairs(pairs: seq<Pair>)
    ensures forall k <- Filled(pairs) :: Pair(k, Filled(pairs)[k]) in pairs
    ensures forall p <- pairs :: p.key in Filled(pairs)
    ensures DistinctKeys(pairs) ==> forall p <- pairs :: Filled(pairs)[p.key] == p.value
  {
    if pairs != [] {
      var pre, last := pairs[..|pairs| - 1], pairs[|pairs| - 1];
      assert pairs == pre + [last];
      FilledPairs(pre);
      if DistinctKeys(pairs) {
        assert DistinctKeys(pre);
        forall p <- pre ensures p.key != last.key {
          var i :| 0 <= i < |pre| && pre[i] == p;
          assert pairs[i] == p;
        }
      }
    }
  }

  // A query of one word is a key with an empty value; without a question mark there are no parameters.
  lemma BareQuery(path: Bytes, word: Bytes)
    requires PlainPath(path) && Clean(word)
    ensures QueryParameters(path + "?" + UrlEncoded(word, true)) == Some(if word == "" then map[] else map[word := ""])
    ensures '?' !in path ==> QueryParameters(path) == Some(map[])
  {
    hide UrlDecode, UrlEncoded;
    var q := UrlEncoded(word, true);
    UrlDecodeInvertsEncode(word, true);
    DecodeOne('?', q);
    assert path + "?" + q == path + ("?" + q);
    DecodeConcat(path, "?" + q);
    var d := UrlDecode(path).value;
    assert d + ("?" + word) == d + "?" + word;
    QuestionAfter(d, word);
    assert '?' in path + "?" + q && path + "?" + q != "/";
  }

  // The last pair with a key gives its value.
  lemma {:induction false} LastPairWins(pairs: seq<Pair>, i: nat)
    requires i < |pairs| && forall j | i < j < |pairs| :: pairs[j].key != pairs[i].key
    ensures pairs[i].key in Filled(pairs) && Filled(pairs)[pairs[i].key] == pairs[i].value
  {
    if i < |pairs| - 1 { LastPairWins(pairs[..|pairs| - 1], i); }
  }

  // The value stands behind the only '='. A piece with none, or with two and more, gives its key the empty value.
  lemma ReadPairForms(key: Bytes, value: Bytes, more: Bytes)
    requires '=' !in key && '=' !in value
    ensures ReadPair(key) == Pair(key, "")
    ensures ReadPair(key + "=" + value) == Pair(key, value)
    ensures ReadPair(key + "=" + (value + "=" + more)) == Pair(key, "")
  {
    SplitAt(key, '=', value);
    SplitAt(value, '=', more);
    SplitAt(key, '=', value + "=" + more);
  }

  // Whatever the query, no key and no value that was read holds a separator.
  lemma ReadIsClean(q: Bytes)
    ensures forall k <- ReadQuery(q) :: Clean(k) && Clean(ReadQuery(q)[k])
  {
    if '&' in q || '=' in q {
      var pieces := Split(q, '&');
      var pairs := ReadPairs(pieces);
      SplitPieces(q, '&');
      FilledPairs(pairs);
      forall p <- pairs ensures Clean(p.key) && Clean(p.value) {
        var i :| 0 <= i < |pairs| && pairs[i] == p;
        SplitPieces(pieces[i], '=');
        SplitParts(pieces[i], '=');
      }
    }
  }

  lemma {:induction false} SplitParts(s: Bytes, delim: Byte)
    ensures forall p <- Split(s, delim), c <- p :: c in s
  {
    if s != "" {
      SplitParts(s[1..], delim);
      var r := Split(s[1..], delim);
      assert r[0] in r;
    }
  }

  // Parsing the encoded query recovers the parameters exactly when none of them holds a separator: the whole URI
  // is decoded before it is split.
  lemma QueryRecoveredIffClean(path: Bytes, pairs: seq<Pair>)
    requires PlainPath(path) && DistinctKeys(pairs)
    ensures QueryParameters(path + "?" + Query(pairs)) == Some(Filled(pairs)) <==> CleanPairs(pairs)
  {
    RequestReads(path, pairs);
    FilledPairs(pairs);
    if CleanPairs(pairs) {
      CleanQueryRecovered(pairs);
    } else {
      ReadIsClean(Join(RawPairs(pairs), "&"));
    }
  }

  // ---- the canonical query of AwsUtils.cpp ----

  function SortedPairs(m: Params): seq<Pair> {
    var ks := Ascending(m.Keys);
    seq(|ks|, i requires 0 <= i < |ks| => assert ks[i] in ks; Pair(ks[i], m[ks[i]]))
  }

  function CanonicalQuery(m: Params): Bytes {
    Query(SortedPairs(m))
  }

  lemma SortedKeys(m: Params)
    ensures var pairs := SortedPairs(m); forall i, j | 0 <= i < j < |pairs| :: Less(pairs[i].key, pairs[j].key)
    ensures DistinctKeys(SortedPairs(m))
  {
    hide Ascending, Less;
    var ks, pairs := Ascending(m.Keys), SortedPairs(m);
    AscendingSorted(m.Keys);
    forall i, j | 0 <= i < j < |pairs| ensures Less(pairs[i].key, pairs[j].key) && pairs[i].key != pairs[j].key {
      assert Less(ks[i], ks[j]);
      LessTotal(ks[i], ks[j]);
    }
  }

  lemma SortedPairsFill(m: Params)
    ensures DistinctKeys(SortedPairs(m)) && Filled(SortedPairs(m)) == m
    ensures var pairs := SortedPairs(m); forall i, j | 0 <= i < j < |pairs| :: Less(pairs[i].key, pairs[j].key)
  {
    hide Ascending, Filled;
    var ks := Ascending(m.Keys);
    var pairs := SortedPairs(m);
    SortedKeys(m);
    FilledPairs(pairs);
    forall k <- m ensures k in Filled(pairs) && Filled(pairs)[k] == m[k] {
      assert k in ks;
      var i :| 0 <= i < |ks| && ks[i] == k;
      assert pairs[i] in pairs && pairs[i] == Pair(k, m[k]);
    }
    forall k <- Filled(pairs) ensures k in m {
      var i :| 0 <= i < |pairs| && pairs[i] == Pair(k, Filled(pairs)[k]);
      assert ks[i] in ks;
    }
  }

  function CanonicalOf(uri: Bytes): Option<Bytes> {
    match QueryParameters(uri) case None => None case Some(m) => Some(CanonicalQuery(m))
  }

  method GetCanonicalQueryParameters(path: Bytes) returns (r: Option<Bytes>)
    ensures r == CanonicalOf(path)
  {
    hide UrlEncoded, Join, Ascending, QueryParameters;
    NoPairs();
    var params := GetQueryParameters(path);
    if params.None? { return None; }
    var m := params.value;
    if |m| == 0 {
      assert m == map[] && EncodedPairs(SortedPairs(m)) == [];
      return Some("");
    }
    var out: Bytes := "";
    var first := true;
    var keys := Ascending(m.Keys);
    ghost var pieces := EncodedPairs(SortedPairs(m));
    for i := 0 to |keys|
      invariant first <==> i == 0
      invariant out == Join(pieces[..i], "&")
    {
      assert keys[i] in keys;
      JoinLast(pieces[..i], pieces[i]);
      assert pieces[..i + 1] == pieces[..i] + [pieces[i]];
      if !first { out := out + "&"; }
      var k := SigV4Encode(keys[i]);
      var v := SigV4Encode(m[keys[i]]);
      out := out + (k + "=" + v);
      first := false;
    }
    assert pieces[..|keys|] == pieces;
    return Some(out);
  }

  lemma {:induction false} JoinLast(v: seq<Bytes>, s: Bytes)
    ensures Join(v + [s], "&") == Join(v, "&") + (if v == [] then "" else "&") + s
  {
    if v == [] {
      assert v + [s] == [s];
    } else {
      assert (v + [s])[1..] == v[1..] + [s];
      JoinLast(v[1..], s);
    }
  }

  lemma PermutedFilled(p: seq<Pair>, q: seq<Pair>)
    requires DistinctKeys(p) && DistinctKeys(q) && multiset(p) == multiset(q)
    ensures Filled(p) == Filled(q)
  {
    FilledPairs(p);
    FilledPairs(q);
    forall x: Pair ensures x in p <==> x in q {
      assert x in p <==> x in multiset(p);
      assert x in q <==> x in multiset(q);
    }
  }

  // The order in which a client writes the parameters does not matter.
  lemma CanonicalQueryIgnoresOrder(path: Bytes, p: seq<Pair>, q: seq<Pair>)
    requires PlainPath(path) && multiset(p) == multiset(q)
    requires DistinctKeys(p) && DistinctKeys(q) && CleanPairs(p)
    ensures CanonicalOf(path + "?" + Query(p)) == CanonicalOf(path + "?" + Query(q)) == Some(CanonicalQuery(Filled(p)))
  {
    PermutedFilled(p, q);
    QueryRecoveredIffClean(path, p);
    assert CleanPairs(q) by {
      forall x <- q ensures Clean(x.key) && Clean(x.value) { assert x in multiset(q); assert x in p; }
    }
    QueryRecoveredIffClean(path, q);
  }

  // Equal canonical queries come from equal parameters.
  lemma CanonicalQueryBinds(u: Bytes, v: Bytes)
    ensures CanonicalOf(u) == CanonicalOf(v) <==> QueryParameters(u) == QueryParameters(v)
  {
    hide QueryParameters, SortedPairs;
    CanonicalQueryRead(u);
    CanonicalQueryRead(v);
  }

  lemma CanonicalQueryRead(uri: Bytes)
    ensures CanonicalOf(uri).Some? ==> QueryParameters("?" + CanonicalOf(uri).value) == QueryParameters(uri)
  {
    hide Query, Filled, ReadQuery, Ascending;
    if CanonicalOf(uri).Some? {
      var m := QueryParameters(uri).value;
      ReadMapIsClean(uri);
      SortedPairsFill(m);
      var pairs := SortedPairs(m);
      assert CleanPairs(pairs) by {
        FilledPairs(pairs);
      }
      assert PlainPath("");
      QueryRecoveredIffClean("", pairs);
      assert "" + "?" + Query(pairs) == "?" + Query(pairs);
    }
  }

  lemma ReadMapIsClean(uri: Bytes)
    ensures var r := QueryParameters(uri); r.Some? ==> forall k <- r.value :: Clean(k) && Clean(r.value[k])
  {
    hide Clean, ReadQuery;
    if uri != "/" && '?' in uri && UrlDecode(uri).Some? { ReadIsClean(AfterQuestion(UrlDecode(uri).value)); }
  }

  // Canonicalising a canonical query, whatever URI it came from, changes nothing.
  lemma CanonicalQueryIdempotent(uri: Bytes, path: Bytes)
    requires PlainPath(path) && CanonicalOf(uri).Some?
    ensures CanonicalOf(path + "?" + CanonicalOf(uri).value) == CanonicalOf(uri)
  {
    var m := QueryParameters(uri).value;
    if uri != "/" && '?' in uri { ReadIsClean(AfterQuestion(UrlDecode(uri).value)); }
    SortedPairsFill(m);
    var pairs := SortedPairs(m);
    assert CleanPairs(pairs) by {
      FilledPairs(pairs);
    }
    QueryRecoveredIffClean(path, pairs);
  }
}
