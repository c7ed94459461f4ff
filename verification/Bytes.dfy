// Byte strings, as std::string holds them, and the order in which std::map<std::string, T> visits its keys.
module Bytes {

  type Byte = c: char | c as int < 256
  type Bytes = seq<Byte>

  predicate Less(a: Bytes, b: Bytes) {
    b != "" && (a == "" || a[0] < b[0] || (a[0] == b[0] && Less(a[1..], b[1..])))
  }

  lemma {:induction false} LessTotal(a: Bytes, b: Bytes)
    ensures Less(a, b) || a == b || Less(b, a)
    ensures !(Less(a, b) && Less(b, a)) && !Less(a, a)
  {
    if a != "" && b != "" && a[0] == b[0] {
      LessTotal(a[1..], b[1..]);
      assert a == [a[0]] + a[1..] && b == [b[0]] + b[1..];
    }
    if a != "" { LessTotal(a[1..], a[1..]); }
  }

  // The order of the first bytes that differ; a text comes behind its own beginnings.
  lemma {:induction false} LessIsLexicographic(a: Bytes, b: Bytes, i: nat)
    requires i <= |a| && i <= |b| && a[..i] == b[..i]
    ensures i < |a| && i < |b| && a[i] != b[i] ==> (Less(a, b) <==> a[i] as int < b[i] as int)
    ensures i == |a| ==> (Less(a, b) <==> i < |b|)
  {
    if i > 0 {
      assert a[0] == a[..i][0] && b[0] == b[..i][0];
      assert a[1..][..i - 1] == a[..i][1..] && b[1..][..i - 1] == b[..i][1..];
      LessIsLexicographic(a[1..], b[1..], i - 1);
    }
  }

  lemma {:induction false} LessTransitive(a: Bytes, b: Bytes, c: Bytes)
    requires Less(a, b) && Less(b, c)
    ensures Less(a, c)
  {
    if a != "" && a[0] == b[0] == c[0] {
      LessTransitive(a[1..], b[1..], c[1..]);
    }
  }

  predicate IsLeast(k: Bytes, keys: set<Bytes>) {
    k in keys && forall j <- keys :: j == k || Less(k, j)
  }

  lemma {:induction false} LeastExists(keys: set<Bytes>)
    requires keys != {}
    ensures exists k :: IsLeast(k, keys)
  {
    var k :| k in keys;
    var rest := keys - {k};
    if rest != {} {
      LeastExists(rest);
      var m :| IsLeast(m, rest);
      LessTotal(k, m);
      var least := if Less(k, m) then k else m;
      forall j <- keys ensures j == least || Less(least, j) {
        if j != k && Less(k, m) && j != m { LessTransitive(k, m, j); }
      }
      assert IsLeast(least, keys);
    } else {
      assert keys == {k};
      assert IsLeast(k, keys);
    }
  }

  function Least(keys: set<Bytes>): (k: Bytes)
    requires keys != {}
    ensures IsLeast(k, keys)
  {
    LeastExists(keys);
    LeastUnique(keys);
    var k :| IsLeast(k, keys);
    k
  }

  lemma LeastUnique(keys: set<Bytes>)
    ensures forall j, k | IsLeast(j, keys) && IsLeast(k, keys) :: j == k
  {
    forall j, k | IsLeast(j, keys) && IsLeast(k, keys) ensures j == k { LessTotal(j, k); }
  }

  // The keys of a std::map in iteration order.
  function Ascending(keys: set<Bytes>): (ks: seq<Bytes>)
    ensures |ks| == |keys|
    ensures forall k :: k in ks <==> k in keys
  {
    if keys == {} then [] else var k := Least(keys); [k] + Ascending(keys - {k})
  }

  lemma {:induction false} AscendingSorted(keys: set<Bytes>)
    ensures forall i, j | 0 <= i < j < |keys| :: Less(Ascending(keys)[i], Ascending(keys)[j])
  {
    if keys != {} {
      AscendingSorted(keys - {Least(keys)});
    }
  }
}
