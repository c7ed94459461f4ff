// SanitizeUtf8 of StringUtils.cpp, on bytes and with its masks.
module Utf8 {
  import opened Sequences

  predicate Continuation(c: bv8) {
    c & 0xC0 == 0x80
  }

  // The replacement character U+FFFD.
  const REPLACEMENT: seq<bv8> := [0xEF, 0xBF, 0xBD]

  // The lead and continuation bytes that are copied as they are; overlong forms and surrogates among them.
  predicate IsUnit(u: seq<bv8>) {
    || (|u| == 1 && u[0] <= 0x7F)
    || (|u| == 2 && u[0] & 0xE0 == 0xC0 && Continuation(u[1]))
    || (|u| == 3 && u[0] & 0xF0 == 0xE0 && Continuation(u[1]) && Continuation(u[2]))
    || (|u| == 4 && u[0] & 0xF8 == 0xF0 && Continuation(u[1]) && Continuation(u[2]) && Continuation(u[3]))
  }

  function Concat(units: seq<seq<bv8>>): seq<bv8> {
    if units == [] then [] else units[0] + Concat(units[1..])
  }

  predicate AllUnits(units: seq<seq<bv8>>) {
    forall u <- units :: IsUnit(u)
  }

  // The length of the unit that s starts with, or 0.
  function UnitLength(s: seq<bv8>): (n: nat)
    requires s != []
    ensures n <= |s| && (n > 0 <==> exists k | 1 <= k <= |s| :: IsUnit(s[..k]))
    ensures n > 0 ==> IsUnit(s[..n])
  {
    if IsUnit(s[..1]) then 1
    else if |s| >= 2 && IsUnit(s[..2]) then 2
    else if |s| >= 3 && IsUnit(s[..3]) then 3
    else if |s| >= 4 && IsUnit(s[..4]) then 4
    else 0
  }

  function Sanitized(s: seq<bv8>): seq<bv8> {
    if s == [] then []
    else
      var n := UnitLength(s);
      if n > 0 then s[..n] + Sanitized(s[n..]) else REPLACEMENT + Sanitized(s[1..])
  }

  method SanitizeUtf8(s: seq<bv8>) returns (output: seq<bv8>)
    ensures output == Sanitized(s)
  {
    output := [];
    var i := 0;
    assert s[0..] == s;
    while i < |s|
      invariant i <= |s| && output + Sanitized(s[i..]) == Sanitized(s)
    {
      hide Sanitized;
      var c := s[i];
      ghost var before := output;
      SanitizedStep(s[i..], before);
      Lengths(s, i);
      if c <= 0x7F {
        output := output + [c];
        i := i + 1;
      } else if c & 0xE0 == 0xC0 && i + 1 < |s| && s[i + 1] & 0xC0 == 0x80 {
        output := output + s[i..i + 2];
        i := i + 2;
      } else if c & 0xF0 == 0xE0 && i + 2 < |s| && s[i + 1] & 0xC0 == 0x80 && s[i + 2] & 0xC0 == 0x80 {
        output := output + s[i..i + 3];
        i := i + 3;
      } else if c & 0xF8 == 0xF0 && i + 3 < |s| && s[i + 1] & 0xC0 == 0x80 && s[i + 2] & 0xC0 == 0x80
                && s[i + 3] & 0xC0 == 0x80 {
        output := output + s[i..i + 4];
        i := i + 4;
      } else {
        output := output + [0xEF, 0xBF, 0xBD];
        i := i + 1;
      }
    }
    assert output + [] == output;
  }

  lemma SanitizedStep(s: seq<bv8>, output: seq<bv8>)
    requires s != []
    ensures var n := UnitLength(s);
      output + Sanitized(s) == if n > 0 then output + s[..n] + Sanitized(s[n..])
                               else output + REPLACEMENT + Sanitized(s[1..])
  {
    hide UnitLength;
  }

  lemma Lengths(s: seq<bv8>, i: nat)
    requires i < |s|
    ensures var c := s[i];
      UnitLength(s[i..]) ==
      if c <= 0x7F then 1
      else if c & 0xE0 == 0xC0 && i + 1 < |s| && Continuation(s[i + 1]) then 2
      else if c & 0xF0 == 0xE0 && i + 2 < |s| && Continuation(s[i + 1]) && Continuation(s[i + 2]) then 3
      else if c & 0xF8 == 0xF0 && i + 3 < |s| && Continuation(s[i + 1]) && Continuation(s[i + 2])
              && Continuation(s[i + 3]) then 4
      else 0
    ensures forall k | 0 <= k <= |s| - i :: s[i..][..k] == s[i..i + k] && s[i..][k..] == s[i + k..]
  {
  }

  // ---- the units are what section 3 of RFC 3629 writes ----

  // Bits of a code point, at a shift and under a mask, behind a tag.
  function Tagged(tag: bv8, n: bv32, shift: bv5, mask: bv32): bv8
    requires mask <= 0x7F
  {
    Fits(n, shift, mask);
    tag | ((n >> shift) & mask) as bv8
  }

  lemma Fits(n: bv32, shift: bv5, mask: bv32)
    requires mask <= 0x7F
    ensures (n >> shift) & mask <= 0x7F
  {
  }

  // The low bits of a code point spread over k bytes.
  function Form(n: bv32, k: nat): (u: seq<bv8>)
    requires 1 <= k <= 4
    ensures |u| == k
  {
    if k == 1 then [Tagged(0, n, 0, 0x7F)]
    else if k == 2 then [Tagged(0xC0, n, 6, 0x1F), Tagged(0x80, n, 0, 0x3F)]
    else if k == 3 then [Tagged(0xE0, n, 12, 0x0F), Tagged(0x80, n, 6, 0x3F), Tagged(0x80, n, 0, 0x3F)]
    else [Tagged(0xF0, n, 18, 0x07), Tagged(0x80, n, 12, 0x3F), Tagged(0x80, n, 6, 0x3F), Tagged(0x80, n, 0, 0x3F)]
  }

  // The number of bytes that holds the code point.
  function Size(n: bv32): (k: nat)
    ensures 1 <= k <= 4
  {
    if n <= 0x7F then 1 else if n <= 0x7FF then 2 else if n <= 0xFFFF then 3 else 4
  }

  function Encoded(n: bv32): seq<bv8> {
    Form(n, Size(n))
  }

  lemma TagsOfBytes(n: bv32, shift: bv5)
    ensures Tagged(0, n, shift, 0x7F) <= 0x7F
    ensures Tagged(0xC0, n, shift, 0x1F) & 0xE0 == 0xC0
    ensures Tagged(0xE0, n, shift, 0x0F) & 0xF0 == 0xE0
    ensures Tagged(0xF0, n, shift, 0x07) & 0xF8 == 0xF0
    ensures Continuation(Tagged(0x80, n, shift, 0x3F))
  {
  }

  lemma FormIsUnit(n: bv32, k: nat)
    requires 1 <= k <= 4
    ensures IsUnit(Form(n, k))
  {
    hide Tagged, Continuation;
    TagsOfBytes(n, 0);
    TagsOfBytes(n, 6);
    TagsOfBytes(n, 12);
    TagsOfBytes(n, 18);
  }

  // The code point whose bits a unit carries.
  function Payload(u: seq<bv8>): bv32
    requires 1 <= |u| <= 4
  {
    if |u| == 1 then u[0] as bv32
    else if |u| == 2 then Six(u[0] as bv32 & 0x1F, u[1])
    else if |u| == 3 then Six(Six(u[0] as bv32 & 0x0F, u[1]), u[2])
    else Six(Six(Six(u[0] as bv32 & 0x07, u[1]), u[2]), u[3])
  }

  // Six more bits.
  function Six(high: bv32, c: bv8): bv32 {
    (high << 6) | (c as bv32 & 0x3F)
  }

  lemma Rebuilt1(a: bv8)
    requires a <= 0x7F
    ensures Tagged(0, a as bv32, 0, 0x7F) == a
  {
  }

  lemma Rebuilt2(a: bv8, b: bv8)
    requires a & 0xE0 == 0xC0 && Continuation(b)
    ensures var n := Six(a as bv32 & 0x1F, b); Tagged(0xC0, n, 6, 0x1F) == a && Tagged(0x80, n, 0, 0x3F) == b
  {
  }

  lemma Rebuilt3(a: bv8, b: bv8, c: bv8)
    requires a & 0xF0 == 0xE0 && Continuation(b) && Continuation(c)
    ensures var n := Six(Six(a as bv32 & 0x0F, b), c);
      Tagged(0xE0, n, 12, 0x0F) == a && Tagged(0x80, n, 6, 0x3F) == b && Tagged(0x80, n, 0, 0x3F) == c
  {
  }

  lemma Rebuilt4(a: bv8, b: bv8, c: bv8, d: bv8)
    requires a & 0xF8 == 0xF0 && Continuation(b) && Continuation(c) && Continuation(d)
    ensures var n := Six(Six(Six(a as bv32 & 0x07, b), c), d);
      && Tagged(0xF0, n, 18, 0x07) == a && Tagged(0x80, n, 12, 0x3F) == b
      && Tagged(0x80, n, 6, 0x3F) == c && Tagged(0x80, n, 0, 0x3F) == d
  {
  }

  lemma UnitIsForm(u: seq<bv8>)
    requires IsUnit(u)
    ensures Form(Payload(u), |u|) == u
  {
    hide Tagged, Six;
    match |u|
    case 1 => Rebuilt1(u[0]);
    case 2 => Rebuilt2(u[0], u[1]);
    case 3 => Rebuilt3(u[0], u[1], u[2]);
    case _ => Rebuilt4(u[0], u[1], u[2], u[3]);
  }

  // A unit is a code point in one to four bytes, be that the shortest form or not.
  lemma UnitsAreForms(u: seq<bv8>)
    ensures IsUnit(u) <==> 1 <= |u| <= 4 && exists n: bv32 :: Form(n, |u|) == u
  {
    hide Form, IsUnit;
    if IsUnit(u) {
      UnitSize(u);
      UnitIsForm(u);
    }
    if 1 <= |u| <= 4 {
      if n: bv32 :| Form(n, |u|) == u { FormIsUnit(n, |u|); }
    }
  }

  lemma UnitSize(u: seq<bv8>)
    requires IsUnit(u)
    ensures 1 <= |u| <= 4
  {
  }

  lemma Kept1(n: bv32)
    requires n <= 0x7F
    ensures Tagged(0, n, 0, 0x7F) as bv32 == n
  {
  }

  lemma Kept2(n: bv32)
    requires n <= 0x7FF
    ensures Six(Tagged(0xC0, n, 6, 0x1F) as bv32 & 0x1F, Tagged(0x80, n, 0, 0x3F)) == n
  {
  }

  lemma Kept3(n: bv32)
    requires n <= 0xFFFF
    ensures Six(Six(Tagged(0xE0, n, 12, 0x0F) as bv32 & 0x0F, Tagged(0x80, n, 6, 0x3F)), Tagged(0x80, n, 0, 0x3F)) == n
  {
  }

  lemma Kept4(n: bv32)
    requires n <= 0x10_FFFF
    ensures Six(Six(Six(Tagged(0xF0, n, 18, 0x07) as bv32 & 0x07, Tagged(0x80, n, 12, 0x3F)), Tagged(0x80, n, 6, 0x3F)),
                Tagged(0x80, n, 0, 0x3F)) == n
  {
  }

  // The shortest form keeps every code point up to U+10FFFF.
  lemma EncodedKeeps(n: bv32)
    requires n <= 0x10_FFFF
    ensures IsUnit(Encoded(n)) && Payload(Encoded(n)) == n
  {
    hide Tagged, Six, IsUnit;
    FormIsUnit(n, Size(n));
    if n <= 0x7F { Kept1(n); }
    else if n <= 0x7FF { Kept2(n); }
    else if n <= 0xFFFF { Kept3(n); }
    else { Kept4(n); }
  }

  lemma ReplacementIsFFFD()
    ensures REPLACEMENT == Encoded(0xFFFD)
  {
  }

  function EncodedText(points: seq<bv32>): seq<bv8> {
    if points == [] then [] else Encoded(points[0]) + EncodedText(points[1..])
  }

  // Text in UTF-8 is left alone.
  lemma EncodedTextUnchanged(points: seq<bv32>)
    ensures Sanitized(EncodedText(points)) == EncodedText(points)
  {
    var units := EncodedUnits(points);
    UnitsUnchanged(units);
  }

  lemma {:induction false} EncodedUnits(points: seq<bv32>) returns (units: seq<seq<bv8>>)
    ensures AllUnits(units) && Concat(units) == EncodedText(points)
  {
    hide IsUnit, Form, Size;
    units := [];
    if points != [] {
      FormIsUnit(points[0], Size(points[0]));
      var rest := EncodedUnits(points[1..]);
      units := [Encoded(points[0])] + rest;
      assert units[1..] == rest;
    }
  }

  // ---- what it does ----

  lemma LeadsDiffer(c: bv8)
    ensures c & 0xE0 == 0xC0 ==> c > 0x7F && c & 0xF0 != 0xE0 && c & 0xF8 != 0xF0 && !Continuation(c)
    ensures c & 0xF0 == 0xE0 ==> c > 0x7F && c & 0xF8 != 0xF0 && !Continuation(c)
    ensures c & 0xF8 == 0xF0 ==> c > 0x7F && !Continuation(c)
    ensures c <= 0x7F ==> !Continuation(c)
  {
  }

  lemma UnitFirst(u: seq<bv8>, rest: seq<bv8>)
    requires IsUnit(u)
    ensures UnitLength(u + rest) == |u|
  {
    LeadsDiffer(u[0]);
    var s := u + rest;
    assert s[..|u|] == u;
    forall k | 1 <= k < |u| ensures !IsUnit(s[..k]) { assert s[..k][0] == u[0]; }
  }

  lemma {:induction false} UnitsUnchanged(units: seq<seq<bv8>>)
    requires AllUnits(units)
    ensures Sanitized(Concat(units)) == Concat(units)
  {
    hide UnitLength, IsUnit;
    if units != [] {
      var u, rest := units[0], Concat(units[1..]);
      assert u in units;
      NotEmpty(u);
      UnitFirst(u, rest);
      assert (u + rest)[..|u|] == u && (u + rest)[|u|..] == rest;
      UnitsUnchanged(units[1..]);
    }
  }

  lemma NotEmpty(u: seq<bv8>)
    requires IsUnit(u)
    ensures u != []
  {
  }

  lemma ReplacementIsUnit()
    ensures IsUnit(REPLACEMENT)
  {
  }

  lemma {:induction false} SanitizedUnits(s: seq<bv8>) returns (units: seq<seq<bv8>>)
    ensures AllUnits(units) && Concat(units) == Sanitized(s)
  {
    hide UnitLength, IsUnit;
    if s == [] {
      units := [];
    } else {
      var n := UnitLength(s);
      ReplacementIsUnit();
      var rest := SanitizedUnits(if n > 0 then s[n..] else s[1..]);
      units := [if n > 0 then s[..n] else REPLACEMENT] + rest;
      assert units[1..] == rest;
    }
  }

  // Text is left alone exactly when it is a sequence of accepted units.
  lemma UnchangedIffUnits(s: seq<bv8>)
    ensures Sanitized(s) == s <==> exists units :: AllUnits(units) && Concat(units) == s
  {
    if Sanitized(s) == s {
      var units := SanitizedUnits(s);
    }
    if units :| AllUnits(units) && Concat(units) == s {
      UnitsUnchanged(units);
    }
  }

  lemma SanitizeIdempotent(s: seq<bv8>)
    ensures Sanitized(Sanitized(s)) == Sanitized(s)
  {
    var units := SanitizedUnits(s);
    UnitsUnchanged(units);
  }

  lemma {:induction false} SanitizedLength(s: seq<bv8>)
    ensures |s| <= |Sanitized(s)| <= 3 * |s|
  {
    hide UnitLength;
    if s != [] {
      var n := UnitLength(s);
      SanitizedLength(if n > 0 then s[n..] else s[1..]);
    }
  }

  lemma ContinuationsFollow(u: seq<bv8>, k: nat)
    requires IsUnit(u) && 1 <= k < |u|
    ensures Continuation(u[k])
  {
  }

  // A unit does not reach into text that starts with no continuation byte.
  lemma UnitStaysInFront(a: seq<bv8>, b: seq<bv8>)
    requires a != [] && (b == [] || !Continuation(b[0]))
    ensures UnitLength(a + b) == UnitLength(a)
  {
    hide IsUnit, Continuation;
    var s := a + b;
    forall k | 1 <= k <= |a| ensures s[..k] == a[..k] {}
    forall k | |a| < k <= |s| ensures !IsUnit(s[..k]) {
      assert s[..k][|a|] == b[0];
      if IsUnit(s[..k]) { ContinuationsFollow(s[..k], |a|); }
    }
  }

  // Damage does not spread past the next byte that is not a continuation byte.
  lemma {:induction false} SanitizeResynchronises(a: seq<bv8>, b: seq<bv8>)
    requires b == [] || !Continuation(b[0])
    ensures Sanitized(a + b) == Sanitized(a) + Sanitized(b)
  {
    hide UnitLength, Continuation;
    if a == [] {
      assert a + b == b;
    } else {
      UnitStaysInFront(a, b);
      var n := UnitLength(a);
      var k := if n > 0 then n else 1;
      DropFront(a, b, k);
      SanitizeResynchronises(a[k..], b);
      Regroup(if n > 0 then a[..k] else REPLACEMENT, Sanitized(a[k..]), Sanitized(b));
    }
  }

  lemma DropFront(a: seq<bv8>, b: seq<bv8>, k: nat)
    requires k <= |a|
    ensures (a + b)[..k] == a[..k] && (a + b)[k..] == a[k..] + b
  {
  }
}
