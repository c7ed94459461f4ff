// Base64, section 4 of RFC 4648: one encoder, three decoders and a recogniser.
module CryptoUtils {
  import opened Bytes
  import opened StringUtils
  import opened Characters
  import opened Sequences
  import opened Wrappers

  const NUL: Byte := '\0'

  predicate InAlphabet(c: Byte) {
    'A' <= c <= 'Z' || 'a' <= c <= 'z' || '0' <= c <= '9' || c == '+' || c == '/'
  }

  function Letter(v: nat): (c: Byte)
    requires v < 64
    ensures InAlphabet(c)
  {
    if v < 26 then ('A' as int + v) as char
    else if v < 52 then ('a' as int + v - 26) as char
    else if v < 62 then ('0' as int + v - 52) as char
    else if v == 62 then '+' else '/'
  }

  // The six bits of a character; every decoder reads '=' as zero.
  function Sextet(c: Byte): (v: Option<nat>)
    ensures v.Some? ==> v.value < 64
  {
    if 'A' <= c <= 'Z' then Some(c as int - 'A' as int)
    else if 'a' <= c <= 'z' then Some(c as int - 'a' as int + 26)
    else if '0' <= c <= '9' then Some(c as int - '0' as int + 52)
    else if c == '+' then Some(62)
    else if c == '/' then Some(63)
    else if c == '=' then Some(0)
    else None
  }

  // Table 1 of section 4 of RFC 4648.
  lemma LetterTable(v: nat)
    requires v < 64
    ensures Letter(v)
      == if v < 26 then UPPER[v] else if v < 52 then LOWER[v - 26] else if v < 62 then DIGITS[v - 52] else "+/"[v - 62]
  {
    if v < 26 { UpperAt(v); } else if v < 52 { LowerAt(v - 26); } else if v < 62 { DigitAt(v - 52); }
  }

  lemma UpperAt(v: nat)
    requires v < 26
    ensures UPPER[v] as int == 'A' as int + v
  {
  }

  lemma LowerAt(v: nat)
    requires v < 26
    ensures LOWER[v] as int == 'a' as int + v
  {
  }

  lemma DigitAt(v: nat)
    requires v < 10
    ensures DIGITS[v] as int == '0' as int + v
  {
  }

  predicate Readable(c: Byte) {
    c in UPPER || c in LOWER || c in DIGITS || c == '+' || c == '/' || c == '='
  }

  lemma ReadableHasSextet(c: Byte)
    ensures Sextet(c).Some? <==> Readable(c)
    ensures InAlphabet(c) <==> Readable(c) && c != '='
    ensures Sextet(c).Some? ==> Letter(Sextet(c).value) == if c == '=' then 'A' else c
  {
    hide UPPER, LOWER, DIGITS;
    CapitalRun(c);
    SmallRun(c);
    DigitRun(c);
  }

  function Zeros(n: nat): (z: Bytes)
    ensures |z| == n && forall i | 0 <= i < n :: z[i] == NUL
  {
    seq(n, i => NUL)
  }

  // ---- EVP_EncodeBlock ----

  function Quad(x: Byte, y: Byte, z: Byte): Bytes {
    var q := x as int * 0x1_0000 + y as int * 0x100 + z as int;
    [Letter(q / 0x4_0000), Letter(q / 0x1000 % 64), Letter(q / 0x40 % 64), Letter(q % 64)]
  }

  // Six bits at a time, from the highest bit of the first byte.
  lemma QuadBits(x: Byte, y: Byte, z: Byte)
    ensures var a, b, c := x as int, y as int, z as int;
      Quad(x, y, z) == [Letter(a / 4), Letter(a % 4 * 16 + b / 16), Letter(b % 16 * 4 + c / 64), Letter(c % 64)]
  {
    hide Letter;
    SixBitGroups(x as int, y as int, z as int);
  }

  lemma SixBitGroups(a: nat, b: nat, c: nat)
    requires a < 256 && b < 256 && c < 256
    ensures var q := a * 0x1_0000 + b * 0x100 + c;
      && q / 0x4_0000 == a / 4 && q / 0x1000 % 64 == a % 4 * 16 + b / 16
      && q / 0x40 % 64 == b % 16 * 4 + c / 64 && q % 64 == c % 64
  {
    FourSextets(a / 4, a % 4 * 16 + b / 16, b % 16 * 4 + c / 64, c % 64);
  }

  lemma FourSextets(s0: nat, s1: nat, s2: nat, s3: nat)
    requires s1 < 64 && s2 < 64 && s3 < 64
    ensures var q := ((s0 * 64 + s1) * 64 + s2) * 64 + s3;
      q / 0x4_0000 == s0 && q / 0x1000 % 64 == s1 && q / 0x40 % 64 == s2 && q % 64 == s3
  {
    var q1 := (s0 * 64 + s1) * 64 + s2;
    var q := q1 * 64 + s3;
    assert q / 64 == q1 && q % 64 == s3;
    assert q1 / 64 == s0 * 64 + s1 && q1 % 64 == s2;
    assert q / 0x1000 == s0 * 64 + s1;
  }

  function EncodeBlock(s: Bytes): Bytes {
    if s == "" then ""
    else if |s| == 1 then Quad(s[0], NUL, NUL)[..2] + "=="
    else if |s| == 2 then Quad(s[0], s[1], NUL)[..3] + "="
    else Quad(s[0], s[1], s[2]) + EncodeBlock(s[3..])
  }

  function Padding(n: nat): nat {
    (3 - n % 3) % 3
  }

  lemma {:induction false} EncodedShape(s: Bytes)
    ensures var e, p := EncodeBlock(s), Padding(|s|);
      && |e| == 4 * ((|s| + 2) / 3) && (s != "" ==> |e| > p)
      && (forall i | 0 <= i < |e| - p :: InAlphabet(e[i]))
      && (forall i | |e| - p <= i < |e| :: e[i] == '=')
  {
    hide Quad, InAlphabet;
    if |s| == 1 {
      QuadShape(s[0], NUL, NUL);
    } else if |s| == 2 {
      QuadShape(s[0], s[1], NUL);
    } else if |s| >= 3 {
      QuadShape(s[0], s[1], s[2]);
      EncodedShape(s[3..]);
    }
  }

  lemma QuadShape(x: Byte, y: Byte, z: Byte)
    ensures |Quad(x, y, z)| == 4 && forall i | 0 <= i < 4 :: InAlphabet(Quad(x, y, z)[i])
  {
    hide Letter;
  }

  // ---- EVP_DecodeBlock: the bytes written before the first bad group, and whether there was none ----

  datatype Block = Block(written: Bytes, ok: bool)

  function Triple(a: nat, b: nat, c: nat, d: nat): Bytes
    requires a < 64 && b < 64 && c < 64 && d < 64
  {
    var q := a * 0x4_0000 + b * 0x1000 + c * 0x40 + d;
    [(q / 0x1_0000) as char, (q / 0x100 % 256) as char, (q % 256) as char]
  }

  function DecodeGroup(s: Bytes): (r: Option<Bytes>)
    requires |s| >= 4
    ensures r.Some? ==> |r.value| == 3
  {
    var a, b, c, d := Sextet(s[0]), Sextet(s[1]), Sextet(s[2]), Sextet(s[3]);
    if a.None? || b.None? || c.None? || d.None? then None else Some(Triple(a.value, b.value, c.value, d.value))
  }

  function DecodeGroups(s: Bytes): (r: Block)
    requires |s| % 4 == 0
    ensures |r.written| <= 3 * (|s| / 4)
    ensures r.ok ==> |r.written| == 3 * (|s| / 4)
  {
    if s == "" then Block("", true)
    else
      match DecodeGroup(s)
      case None => Block("", false)
      case Some(t) =>
        var r := DecodeGroups(s[4..]);
        Block(t + r.written, r.ok)
  }

  function DecodeBlock(s: Bytes): (r: Block)
    ensures |r.written| <= 3 * (|s| / 4)
    ensures r.ok ==> |r.written| == 3 * (|s| / 4)
  {
    if |s| % 4 != 0 then Block("", false) else DecodeGroups(s)
  }

  lemma SextetOfLetter(v: nat)
    requires v < 64
    ensures Sextet(Letter(v)) == Some(v)
  {
  }

  lemma TripleOfQuad(x: nat, y: nat, z: nat)
    requires x < 256 && y < 256 && z < 256
    ensures var q := x * 0x1_0000 + y * 0x100 + z;
      Triple(q / 0x4_0000, q / 0x1000 % 64, q / 0x40 % 64, q % 64) == [x as char, y as char, z as char]
  {
    var q := x * 0x1_0000 + y * 0x100 + z;
    SixBits(q);
    EightBits(x, y, z);
  }

  lemma SixBits(q: nat)
    ensures q / 0x4_0000 * 0x4_0000 + q / 0x1000 % 64 * 0x1000 + q / 0x40 % 64 * 0x40 + q % 64 == q
  {
    var q1, q2, q3 := q / 0x40, q / 0x1000, q / 0x4_0000;
    assert q == 0x40 * q1 + q % 64;
    assert q1 == 0x40 * q2 + q1 % 64;
    assert q2 == 0x40 * q3 + q2 % 64;
  }

  lemma EightBits(x: nat, y: nat, z: nat)
    requires x < 256 && y < 256 && z < 256
    ensures var q := x * 0x1_0000 + y * 0x100 + z;
      q < 0x100_0000 && q / 0x1_0000 == x && q / 0x100 % 256 == y && q % 256 == z
  {
    assert (x * 0x1_0000 + y * 0x100 + z) / 0x100 == x * 0x100 + y;
  }

  lemma DecodeQuad(x: Byte, y: Byte, z: Byte)
    ensures DecodeGroup(Quad(x, y, z)) == Some([x, y, z])
  {
    hide Letter, Sextet, Triple;
    var q := x as int * 0x1_0000 + y as int * 0x100 + z as int;
    assert q / 0x4_0000 < 64;
    SextetOfLetter(q / 0x4_0000);
    SextetOfLetter(q / 0x1000 % 64);
    SextetOfLetter(q / 0x40 % 64);
    SextetOfLetter(q % 64);
    TripleOfQuad(x as int, y as int, z as int);
  }

  // A group whose padding stands where zero bits would be written.
  lemma LastGroup(s: Bytes)
    requires 1 <= |s| <= 2
    ensures DecodeGroup(EncodeBlock(s)) == Some(s + Zeros(3 - |s|))
  {
    hide *;
    var y := if |s| == 1 then NUL else s[1];
    DecodeQuad(s[0], y, NUL);
    ZeroBitsAreA(s[0], y);
    EncodeShort(s, y);
    SameGroup(EncodeBlock(s), Quad(s[0], y, NUL));
    PadOut(s, y);
  }

  lemma PadOut(s: Bytes, y: Byte)
    requires (|s| == 1 && y == NUL) || (|s| == 2 && y == s[1])
    ensures s + Zeros(3 - |s|) == [s[0], y, NUL]
  {
  }

  lemma EncodeShort(s: Bytes, y: Byte)
    requires (|s| == 1 && y == NUL) || (|s| == 2 && y == s[1])
    ensures |Quad(s[0], y, NUL)| == 4
    ensures EncodeBlock(s) == Quad(s[0], y, NUL)[..|s| + 1] + if |s| == 1 then "==" else "="
  {
    hide Letter;
  }

  lemma SameGroup(s: Bytes, t: Bytes)
    requires |s| == |t| == 4 && forall i | 0 <= i < 4 :: s[i] == t[i] || (s[i] == '=' && t[i] == 'A')
    ensures DecodeGroup(s) == DecodeGroup(t)
  {
  }

  lemma ZeroBitsAreA(x: Byte, y: Byte)
    ensures |Quad(x, y, NUL)| == 4 && Quad(x, y, NUL)[3] == 'A'
    ensures y == NUL ==> Quad(x, y, NUL)[2] == 'A'
  {
    LowBits(x as int, y as int);
  }

  lemma LowBits(x: nat, y: nat)
    ensures var q := x * 0x1_0000 + y * 0x100; q % 64 == 0 && (y == 0 ==> q / 0x40 % 64 == 0)
  {
    assert x * 0x1_0000 + y * 0x100 == 64 * (x * 0x400 + y * 4);
    if y == 0 { assert x * 0x400 == 64 * (x * 16); }
  }

  lemma {:induction false} DecodeInvertsEncode(s: Bytes)
    ensures |EncodeBlock(s)| % 4 == 0
    ensures DecodeBlock(EncodeBlock(s)) == Block(s + Zeros(Padding(|s|)), true)
  {
    hide Quad, DecodeGroup, DecodeGroups, EncodeBlock;
    EncodedShape(s);
    if s == "" {
      NothingDecoded();
    } else if |s| < 3 {
      LastGroup(s);
      NothingDecoded();
      DecodeStep(EncodeBlock(s), s + Zeros(Padding(|s|)), "");
      assert EncodeBlock(s) + "" == EncodeBlock(s);
      assert s + Zeros(Padding(|s|)) + "" == s + Zeros(Padding(|s|));
    } else {
      var rest := s[3..];
      DecodeInvertsEncode(rest);
      DecodeQuad(s[0], s[1], s[2]);
      QuadLength(s[0], s[1], s[2]);
      FirstThree(s);
      EncodeStep(s);
      DecodeStep(Quad(s[0], s[1], s[2]), s[..3], EncodeBlock(rest));
      assert s[..3] + (rest + Zeros(Padding(|rest|))) == s + Zeros(Padding(|s|));
    }
  }

  lemma NothingDecoded()
    ensures EncodeBlock("") == "" && DecodeGroups("") == Block("", true) && "" + Zeros(Padding(0)) == ""
  {
  }

  lemma EncodeStep(s: Bytes)
    requires |s| >= 3
    ensures EncodeBlock(s) == Quad(s[0], s[1], s[2]) + EncodeBlock(s[3..])
  {
    hide Quad;
  }

  lemma FirstThree(s: Bytes)
    requires |s| >= 3
    ensures s[..3] == [s[0], s[1], s[2]]
  {
  }

  lemma DecodeStep(group: Bytes, bytes: Bytes, rest: Bytes)
    requires |group| == 4 && DecodeGroup(group) == Some(bytes) && |rest| % 4 == 0
    ensures DecodeGroups(group + rest) == Block(bytes + DecodeGroups(rest).written, DecodeGroups(rest).ok)
  {
    hide DecodeGroup;
    GroupOnly(group, rest);
    assert (group + rest)[4..] == rest;
  }

  lemma QuadLength(x: Byte, y: Byte, z: Byte)
    ensures |Quad(x, y, z)| == 4
  {
  }

  lemma GroupOnly(group: Bytes, rest: Bytes)
    requires |group| == 4
    ensures DecodeGroup(group + rest) == DecodeGroup(group)
  {
  }

  // ---- the encoders ----

  method EncodeBlockInto(buffer: array<Byte>, s: Bytes) returns (length: nat)
    requires buffer.Length > 4 * ((|s| + 2) / 3)
    modifies buffer
    ensures length == 4 * ((|s| + 2) / 3)
    ensures buffer[..length] == EncodeBlock(s) && buffer[length] == NUL
  {
    hide EncodeBlock;
    EncodedShape(s);
    var e := EncodeBlock(s);
    length := |e|;
    for i := 0 to length
      invariant buffer[..i] == e[..i]
    {
      buffer[i] := e[i];
    }
    buffer[length] := NUL;
  }

  method Base64Encode(s: Bytes) returns (encoded: Bytes)
    ensures encoded == EncodeBlock(s)
  {
    if s == "" { return ""; }
    EncodedShape(s);
    var length := 4 * ((|s| + 2) / 3);
    var buffer := new Byte[length + 1](_ => NUL);
    var _ := EncodeBlockInto(buffer, s);
    encoded := buffer[..length];
  }

  method Base64EncodeRaw(data: Bytes) returns (encoded: Bytes)
    ensures encoded == EncodeBlock(data)
  {
    if data == "" { return ""; }
    EncodedShape(data);
    var result := new Byte[4 * ((|data| + 2) / 3) + 1](_ => NUL);
    var actualLen := EncodeBlockInto(result, data);
    encoded := result[..actualLen];
  }

  // ---- the string decoder ----

  function CString(s: Bytes): (r: Bytes)
    ensures |r| <= |s| && r == s[..|r|]
    ensures NUL !in r && (|r| == |s| || s[|r|] == NUL)
  {
    if s == "" || s[0] == NUL then "" else [s[0]] + CString(s[1..])
  }

  function TrailingEquals(s: Bytes): (k: nat)
    ensures k <= |s|
  {
    if s == "" || s[|s| - 1] != '=' then 0 else 1 + TrailingEquals(s[..|s| - 1])
  }

  predicate NotOnlyEquals(c: Bytes) {
    exists i | 0 <= i < |c| :: c[i] != '='
  }

  // LengthError is the exception of a string constructor that is given a negative size; in OutOfBounds the count-down
  // has stepped in front of the text.
  datatype Decoding = Decoded(text: Bytes) | LengthError | OutOfBounds

  function StringDecoded(s: Bytes): Decoding {
    if s == "" then Decoded("")
    else
      var c := CString(s);
      var n, k := 3 * |c| / 4, TrailingEquals(c);
      if k == |c| then OutOfBounds
      else if n < k then LengthError
      else
        var w := DecodeBlock(c).written;
        Decoded((w + Zeros(n - |w|))[..n - k])
  }

  method DecodeBlockInto(buffer: array<Byte>, s: Bytes) returns (actualLen: int)
    requires buffer.Length >= 3 * (|s| / 4)
    modifies buffer
    ensures actualLen == if DecodeBlock(s).ok then |DecodeBlock(s).written| else -1
    ensures buffer[..] == DecodeBlock(s).written + old(buffer[..])[|DecodeBlock(s).written|..]
  {
    hide DecodeBlock;
    var r := DecodeBlock(s);
    for i := 0 to |r.written|
      invariant buffer[..i] == r.written[..i] && buffer[i..] == old(buffer[..])[i..]
    {
      buffer[i] := r.written[i];
      assert buffer[i + 1..] == old(buffer[..])[i..][1..];
    }
    assert buffer[..] == buffer[..|r.written|] + buffer[|r.written|..];
    actualLen := if r.ok then |r.written| else -1;
  }

  // The count-down stays inside exactly the texts that hold something other than '=' before their first NUL.
  method Base64Decode(encoded: Bytes) returns (decoded: Decoding)
    ensures decoded == StringDecoded(encoded)
    ensures decoded == OutOfBounds <==> encoded != "" && !NotOnlyEquals(CString(encoded))
  {
    hide DecodeBlock, TrailingEquals, CString, NotOnlyEquals, Zeros;
    if encoded == "" { return Decoded(""); }
    var c := CString(encoded);
    SomethingElse(c);
    var base64Len := |c|;
    var dataLen := 3 * base64Len / 4;
    var data := new Byte[dataLen](_ => NUL);
    assert data[..] == Zeros(dataLen);
    var _ := DecodeBlockInto(data, c);
    var w := DecodeBlock(c).written;
    assert data[..] == w + Zeros(dataLen - |w|);
    assert c[..|c|] == c;
    while base64Len > 0 && encoded[base64Len - 1] == '='
      invariant 0 <= base64Len <= |c|
      invariant TrailingEquals(c) == |c| - base64Len + TrailingEquals(c[..base64Len])
      invariant dataLen == data.Length - (|c| - base64Len) && data[..] == w + Zeros(data.Length - |w|)
    {
      dataLen := dataLen - 1;
      TrailingStep(c, base64Len - 1);
      base64Len := base64Len - 1;
    }
    if base64Len == 0 { return OutOfBounds; }
    TrailingStep(c, base64Len - 1);
    if dataLen < 0 { return LengthError; }
    assert data[..dataLen] == data[..][..dataLen];
    return Decoded(data[..dataLen]);
  }

  lemma TrailingStep(c: Bytes, n: nat)
    requires n < |c|
    ensures TrailingEquals(c[..n + 1]) == if c[n] == '=' then 1 + TrailingEquals(c[..n]) else 0
  {
    assert c[..n + 1][..n] == c[..n];
  }

  lemma {:induction false} SomethingElse(c: Bytes)
    ensures TrailingEquals(c) < |c| <==> NotOnlyEquals(c)
  {
    if c != "" && c[|c| - 1] == '=' {
      var d := c[..|c| - 1];
      SomethingElse(d);
      if i :| 0 <= i < |c| && c[i] != '=' { assert d[i] == c[i]; }
      if i :| 0 <= i < |d| && d[i] != '=' { assert c[i] == d[i]; }
    } else if c != "" {
      assert c[|c| - 1] != '=';
    }
  }

  // ---- the raw decoder ----

  function RawPadding(s: Bytes): nat {
    if |s| < 2 then 0 else (if s[|s| - 1] == '=' then 1 else 0) + if s[|s| - 2] == '=' then 1 else 0
  }

  function RawDecoded(s: Bytes): Bytes {
    var r := DecodeBlock(s);
    if s == "" || !r.ok then "" else r.written[..|r.written| - RawPadding(s)]
  }

  method Base64DecodeRaw(encoded: Bytes) returns (result: Bytes)
    ensures result == RawDecoded(encoded)
  {
    if encoded == "" { return ""; }
    var buffer := new Byte[3 * (|encoded| / 4)](_ => NUL);
    var actualLen := DecodeBlockInto(buffer, encoded);
    if actualLen < 0 { return ""; }
    var padding := 0;
    if |encoded| >= 2 {
      if encoded[|encoded| - 1] == '=' { padding := padding + 1; }
      if encoded[|encoded| - 2] == '=' { padding := padding + 1; }
    }
    result := buffer[..actualLen - padding];
  }

  // ---- the file decoder ----

  function Equals(n: nat): (r: Bytes)
    ensures |r| == n && forall i | 0 <= i < n :: r[i] == '='
  {
    seq(n, i => '=')
  }

  function Completed(s: Bytes): (r: Bytes)
    ensures |r| % 4 == 0 && (s != "" ==> |r| >= 4)
  {
    s + Equals((4 - |s| % 4) % 4)
  }

  function CountEquals(s: Bytes): (n: nat)
    ensures n <= |s|
  {
    if s == "" then 0 else CountEquals(s[..|s| - 1]) + if s[|s| - 1] == '=' then 1 else 0
  }

  function WithoutEquals(s: Bytes): (r: Bytes)
    ensures |r| == |s| && forall i | 0 <= i < |s| :: r[i] == if s[i] == '=' then 'A' else s[i]
  {
    seq(|s|, i requires 0 <= i < |s| => if s[i] == '=' then 'A' else s[i])
  }

  // What ends up in the file. A character outside the alphabet raises an exception that leaves the file empty; None is
  // a step in front of the start of an empty string.
  function FileDecoded(s: Bytes): Option<Bytes> {
    if TrimRight(s) == "" then None
    else
      var input := Completed(TrimRight(s));
      var n := |input| - 4;
      var pads := CountEquals(input[n..]);
      var r := DecodeBlock(input[..n] + WithoutEquals(input[n..]));
      Some(if !r.ok then "" else r.written[..|r.written| - if pads < 2 then pads else 2])
  }

  // The decoder stays inside exactly the texts that hold something other than white space.
  method Base64DecodeToFile(encoded: Bytes) returns (file: Option<Bytes>)
    ensures file == FileDecoded(encoded)
    ensures file == None <==> forall i | 0 <= i < |encoded| :: Space(encoded[i])
  {
    hide DecodeBlock, CountEquals;
    var input := encoded;
    while input != "" && Space(input[|input| - 1])
      invariant TrimRight(input) == TrimRight(encoded)
      decreases |input|
    {
      input := input[..|input| - 1];
    }
    TrimRightShape(encoded);
    if input == "" { return None; }
    input := input + Equals((4 - |input| % 4) % 4);
    assert input == Completed(TrimRight(encoded));
    var pads := CountLast(input);
    input := ReplaceLast(input);
    var r := DecodeBlock(input);
    if !r.ok { return Some(""); }
    var output := r.written;
    return Some(output[..|output| - if pads < 2 then pads else 2]);
  }

  // std::count over the last four characters.
  method CountLast(input: Bytes) returns (pads: nat)
    requires |input| >= 4
    ensures pads == CountEquals(input[|input| - 4..])
  {
    var last := input[|input| - 4..];
    pads := 0;
    for i := 0 to 4
      invariant pads == CountEquals(last[..i])
    {
      assert last[..i + 1][..i] == last[..i];
      if last[i] == '=' { pads := pads + 1; }
    }
    assert last[..4] == last;
  }

  // std::replace over the last four characters.
  method ReplaceLast(input: Bytes) returns (result: Bytes)
    requires |input| >= 4
    ensures result == input[..|input| - 4] + WithoutEquals(input[|input| - 4..])
  {
    var n := |input| - 4;
    result := input;
    for i := n to |input|
      invariant |result| == |input| && result[..n] == input[..n] && result[i..] == input[i..]
      invariant forall j | n <= j < i :: result[j] == if input[j] == '=' then 'A' else input[j]
    {
      if result[i] == '=' { result := result[i := 'A']; }
    }
  }

  // ---- every decoder inverts the encoder ----

  lemma {:induction false} TrailingEqualsOf(s: Bytes, p: nat)
    requires p < |s| && s[|s| - p - 1] != '=' && forall i | |s| - p <= i < |s| :: s[i] == '='
    ensures TrailingEquals(s) == p
  {
    if p > 0 { TrailingEqualsOf(s[..|s| - 1], p - 1); }
  }

  lemma StringDecoderInverts(s: Bytes)
    ensures StringDecoded(EncodeBlock(s)) == Decoded(s)
  {
    hide EncodeBlock, DecodeBlock, TrailingEquals;
    EncodedShape(s);
    DecodeInvertsEncode(s);
    var e, p := EncodeBlock(s), Padding(|s|);
    if s != "" {
      assert CString(e) == e;
      TrailingEqualsOf(e, p);
      assert e[0] != '=';
      assert s + Zeros(p) + Zeros(0) == s + Zeros(p);
      assert (s + Zeros(p))[..|s|] == s;
    }
  }

  lemma RawDecoderInverts(s: Bytes)
    ensures RawDecoded(EncodeBlock(s)) == s
  {
    hide EncodeBlock, DecodeBlock;
    EncodedShape(s);
    DecodeInvertsEncode(s);
  }

  lemma {:induction false} CountEqualsOf(s: Bytes, p: nat)
    requires p <= |s| && forall i | 0 <= i < |s| :: s[i] == '=' <==> i >= |s| - p
    ensures CountEquals(s) == p
  {
    if s != "" { CountEqualsOf(s[..|s| - 1], if p == 0 then 0 else p - 1); }
  }

  lemma {:induction false} SameSextets(s: Bytes, t: Bytes)
    requires |s| == |t| && |s| % 4 == 0 && forall i | 0 <= i < |s| :: Sextet(s[i]) == Sextet(t[i])
    ensures DecodeGroups(s) == DecodeGroups(t)
  {
    if s != "" { SameSextets(s[4..], t[4..]); }
  }

  // Whole groups with p characters of padding at the end, and no white space.
  predicate PaddedText(e: Bytes, p: nat) {
    && |e| % 4 == 0 && |e| >= 4 && p <= 2
    && (forall i | 0 <= i < |e| - p :: e[i] != '=' && !Space(e[i]))
    && (forall i | |e| - p <= i < |e| :: e[i] == '=')
  }

  lemma EncodedIsPaddedText(s: Bytes)
    requires s != ""
    ensures PaddedText(EncodeBlock(s), Padding(|s|))
  {
    hide EncodeBlock;
    EncodedShape(s);
  }

  lemma CompletionRestores(e: Bytes, p: nat, missing: nat, spaces: Bytes)
    requires PaddedText(e, p) && missing <= p && forall c <- spaces :: Space(c)
    ensures var given := e[..|e| - missing] + spaces; TrimRight(given) != "" && Completed(TrimRight(given)) == e
  {
    hide TrimRight;
    var kept := e[..|e| - missing];
    TrimRightOf(kept, spaces);
    assert (4 - |kept| % 4) % 4 == missing;
  }

  lemma LastGroupReplaced(e: Bytes, p: nat)
    requires PaddedText(e, p)
    ensures var n := |e| - 4;
      CountEquals(e[n..]) == p && DecodeBlock(e[..n] + WithoutEquals(e[n..])) == DecodeBlock(e)
  {
    hide CountEquals, DecodeGroups;
    var n := |e| - 4;
    CountEqualsOf(e[n..], p);
    SameSextets(e, e[..n] + WithoutEquals(e[n..]));
  }

  // The padding may be missing, in part or entirely, and white space may follow.
  lemma FileDecoderInverts(s: Bytes, missing: nat, spaces: Bytes)
    requires s != "" && missing <= Padding(|s|) && forall c <- spaces :: Space(c)
    ensures var e := EncodeBlock(s);
      missing <= |e| && var given := e[..|e| - missing] + spaces; FileDecoded(given) == Some(s)
  {
    hide EncodeBlock, DecodeBlock, TrimRight, CountEquals, PaddedText, Completed, WithoutEquals, FileDecoded;
    var e, p := EncodeBlock(s), Padding(|s|);
    EncodedShape(s);
    EncodedIsPaddedText(s);
    CompletionRestores(e, p, missing, spaces);
    LastGroupReplaced(e, p);
    DecodeInvertsEncode(s);
    FileDecodedOf(e[..|e| - missing] + spaces, e, p, s + Zeros(p));
    assert (s + Zeros(p))[..|s|] == s;
  }

  lemma FileDecodedOf(given: Bytes, e: Bytes, p: nat, written: Bytes)
    requires TrimRight(given) != "" && Completed(TrimRight(given)) == e && |e| >= 4 && p <= 2 <= |written|
    requires CountEquals(e[|e| - 4..]) == p
    requires DecodeBlock(e[..|e| - 4] + WithoutEquals(e[|e| - 4..])) == Block(written, true)
    ensures FileDecoded(given) == Some(written[..|written| - p])
  {
    hide TrimRight, Completed, DecodeBlock, CountEquals, WithoutEquals;
  }

  // ---- texts that no encoder writes ----

  predicate AllReadable(s: Bytes) {
    forall i | 0 <= i < |s| :: Readable(s[i])
  }

  lemma GroupReadable(s: Bytes)
    requires |s| >= 4
    ensures DecodeGroup(s).Some? <==> AllReadable(s[..4])
  {
    hide Readable, Sextet;
    ReadableHasSextet(s[0]);
    ReadableHasSextet(s[1]);
    ReadableHasSextet(s[2]);
    ReadableHasSextet(s[3]);
    assert s[..4] == [s[0], s[1], s[2], s[3]];
  }

  // A block is refused exactly for its length or for a character.
  lemma BlockReadable(s: Bytes)
    ensures DecodeBlock(s).ok <==> |s| % 4 == 0 && AllReadable(s)
  {
    if |s| % 4 == 0 { GroupsReadable(s); }
  }

  lemma {:induction false} GroupsReadable(s: Bytes)
    requires |s| % 4 == 0
    ensures DecodeGroups(s).ok <==> AllReadable(s)
  {
    hide Readable, DecodeGroup;
    if s != "" {
      GroupReadable(s);
      GroupsReadable(s[4..]);
      ReadableInParts(s);
    }
  }

  lemma ReadableInParts(s: Bytes)
    requires |s| >= 4
    ensures AllReadable(s) <==> AllReadable(s[..4]) && AllReadable(s[4..])
  {
    hide Readable;
    if AllReadable(s[..4]) && AllReadable(s[4..]) {
      forall i | 0 <= i < |s| ensures Readable(s[i]) {
        assert if i < 4 then s[i] == s[..4][i] else s[i] == s[4..][i - 4];
      }
    }
  }

  lemma BadGroup(s: Bytes)
    requires |s| >= 4 && |s| % 4 == 0 && DecodeGroup(s).None?
    ensures DecodeGroups(s) == Block("", false)
  {
  }

  // Decoding stops in front of the first bad group, and what was written stays.
  lemma {:induction false} StopsAtBadGroup(good: Bytes, bad: Bytes, rest: Bytes)
    requires |good| % 4 == 0 && AllReadable(good) && |bad| == 4 && !AllReadable(bad) && |rest| % 4 == 0
    ensures DecodeBlock(good + bad + rest) == Block(DecodeBlock(good).written, false)
  {
    hide Readable, DecodeGroup, AllReadable, DecodeGroups;
    var s := good + bad + rest;
    if good == "" {
      assert s[..4] == bad;
      GroupReadable(s);
      NothingDecoded();
      BadGroup(s);
    } else {
      var group, more := good[..4], good[4..];
      assert s == group + (more + bad + rest) && good == group + more;
      ReadableInParts(good);
      GroupReadable(good);
      GroupOnly(group, more);
      StopsAtBadGroup(more, bad, rest);
      DecodeStep(group, DecodeGroup(group).value, more);
      DecodeStep(group, DecodeGroup(group).value, more + bad + rest);
    }
  }

  // The raw decoder gives nothing for a bad length or character, and three bytes for each group without its padding for
  // the others.
  lemma RawDecoderRefuses(s: Bytes)
    ensures if s != "" && |s| % 4 == 0 && AllReadable(s) then
              RawDecoded(s) <= DecodeBlock(s).written
              && |RawDecoded(s)| == 3 * (|s| / 4) - (if s[|s| - 1] == '=' then 1 else 0)
                                                  - (if s[|s| - 2] == '=' then 1 else 0)
            else RawDecoded(s) == ""
  {
    hide DecodeBlock, AllReadable;
    BlockReadable(s);
  }

  // The file is left empty exactly for a bad character, whatever the length.
  lemma FileDecoderRefuses(s: Bytes)
    requires TrimRight(s) != ""
    ensures FileDecoded(s).Some?
    ensures FileDecoded(s).value == "" <==> !AllReadable(TrimRight(s))
  {
    hide DecodeBlock, CountEquals, TrimRight, Readable;
    var t := TrimRight(s);
    var input := Completed(t);
    var n := |input| - 4;
    var block := input[..n] + WithoutEquals(input[n..]);
    BlockReadable(block);
    ReplacedReadable(t, block);
  }

  lemma ReplacedReadable(t: Bytes, block: Bytes)
    requires t != "" && block == Completed(t)[..|Completed(t)| - 4] + WithoutEquals(Completed(t)[|Completed(t)| - 4..])
    ensures |block| == |Completed(t)| && (AllReadable(block) <==> AllReadable(t))
  {
    hide Readable;
    PadIsReadable();
    var input := Completed(t);
    assert forall i | 0 <= i < |input| :: block[i] == input[i] || (block[i] == 'A' && input[i] == '=');
    assert forall i | 0 <= i < |input| :: if i < |t| then input[i] == t[i] else input[i] == '=';
  }

  lemma PadIsReadable()
    ensures Readable('=') && Readable('A')
  {
    assert UPPER[0] == 'A';
  }

  // Whatever the text, the string decoder answers with three quarters of its length less one for each '=' at the end:
  // what was decoded in front of a bad length or character, and NUL from there on.
  lemma StringDecoderFills(s: Bytes)
    ensures StringDecoded(s).Decoded? && s != "" ==>
      var c, t := CString(s), StringDecoded(s).text;
      var w := DecodeBlock(c).written;
      && |t| == 3 * |c| / 4 - TrailingEquals(c)
      && forall i | 0 <= i < |t| :: t[i] == if i < |w| then w[i] else '\0'
  {
    hide DecodeBlock, TrailingEquals, CString;
  }

  // ---- IsBase64 ----

  // std::string::find
  function FindFrom(s: Bytes, pattern: Bytes, from: nat): (r: Option<nat>)
    requires from <= |s|
    ensures r.None? ==> forall i | from <= i <= |s| :: !OccursAt(s, pattern, i)
    ensures r.Some? ==> from <= r.value <= |s| && OccursAt(s, pattern, r.value)
    ensures r.Some? ==> forall i | from <= i < r.value :: !OccursAt(s, pattern, i)
    decreases |s| - from
  {
    if OccursAt(s, pattern, from) then Some(from)
    else if from == |s| then None else FindFrom(s, pattern, from + 1)
  }

  predicate IsBase64(s: Bytes) {
    && |s| % 4 == 0
    && (forall c <- s :: InAlphabet(c) || c == '=')
    && var three, two, one := FindFrom(s, "===", 0), FindFrom(s, "==", 0), FindFrom(s, "=", 0);
      if three.Some? then three.value >= |s| - 3
      else if two.Some? then two.value >= |s| - 2
      else if one.Some? then one.value >= |s| - 1
      else true
  }

  predicate Occurs(s: Bytes, pattern: Bytes) {
    exists i: nat | i <= |s| :: OccursAt(s, pattern, i)
  }

  predicate OnlyAtEnd(s: Bytes, pattern: Bytes) {
    forall i: nat | i <= |s| && OccursAt(s, pattern, i) :: i == |s| - |pattern|
  }

  // Only the longest run of up to three '=' that occurs is held to the end of the text.
  lemma RecognisedExactly(s: Bytes)
    ensures IsBase64(s) <==>
      && |s| % 4 == 0 && AllReadable(s)
      && if Occurs(s, "===") then OnlyAtEnd(s, "===")
         else if Occurs(s, "==") then OnlyAtEnd(s, "==") else OnlyAtEnd(s, "=")
  {
    hide OccursAt, FindFrom, Readable, InAlphabet;
    forall c ensures InAlphabet(c) || c == '=' <==> Readable(c) { ReadableHasSextet(c); }
    assert (forall c <- s :: InAlphabet(c) || c == '=') <==> AllReadable(s) by {
      if AllReadable(s) {
        forall c <- s ensures Readable(c) {
          var i :| 0 <= i < |s| && s[i] == c;
        }
      }
    }
    FirstAtEnd(s, "===");
    FirstAtEnd(s, "==");
    FirstAtEnd(s, "=");
  }

  // So a single '=' may stand anywhere in front of three at the end, where no encoder puts one.
  lemma MisplacedPadding(s: Bytes)
    ensures IsBase64("AA=AA===") && EncodeBlock(s) != "AA=AA==="
  {
    hide EncodeBlock, IsBase64;
    MisplacedIsRecognised();
    NotWritten(s, "AA=AA===");
  }

  lemma NotWritten(s: Bytes, t: Bytes)
    requires |t| > 5 && t[2] == '='
    ensures EncodeBlock(s) != t
  {
    hide EncodeBlock, InAlphabet;
    EncodedShape(s);
    NotInAlphabet();
    assert |EncodeBlock(s)| > 5 ==> EncodeBlock(s)[2] != '=';
  }

  lemma MisplacedIsRecognised()
    ensures IsBase64("AA=AA===")
  {
    hide IsBase64, FindFrom, Readable;
    var t := "AA=AA===";
    RecognisedExactly(t);
    PadIsReadable();
    assert t[5..8] == "===";
    assert OccursAt(t, "===", 5);
    forall i: nat | i <= |t| && OccursAt(t, "===", i) ensures i == 5 {
      assert t[i..i + 3][0] == t[i] && t[i..i + 3][1] == t[i + 1];
    }
  }

  lemma FirstAtEnd(s: Bytes, pattern: Bytes)
    requires pattern != ""
    ensures FindFrom(s, pattern, 0).Some? <==> Occurs(s, pattern)
    ensures FindFrom(s, pattern, 0).Some? ==>
      (FindFrom(s, pattern, 0).value >= |s| - |pattern| <==> OnlyAtEnd(s, pattern))
    ensures FindFrom(s, pattern, 0).None? ==> OnlyAtEnd(s, pattern)
  {
    hide FindFrom;
  }

  lemma EncodedCharacters(s: Bytes)
    ensures forall c <- EncodeBlock(s) :: InAlphabet(c) || c == '='
  {
    hide EncodeBlock, InAlphabet;
    EncodedShape(s);
  }

  lemma EncodedIsBase64(s: Bytes)
    ensures IsBase64(EncodeBlock(s))
  {
    hide EncodeBlock, FindFrom, OccursAt, InAlphabet;
    EncodedCharacters(s);
    EncodedShape(s);
    NotInAlphabet();
    var e, p := EncodeBlock(s), Padding(|s|);
    PatternAtEnd(e, p);
    if p == 2 { TwoAtEnd(e); }
  }

  lemma NotInAlphabet()
    ensures !InAlphabet('=')
  {
  }

  lemma TwoAtEnd(e: Bytes)
    requires |e| >= 2 && e[|e| - 2] == e[|e| - 1] == '='
    ensures OccursAt(e, "==", |e| - 2)
  {
    assert e[|e| - 2..|e|] == "==";
  }

  lemma StartsHere(e: Bytes, pattern: Bytes, i: nat)
    requires OccursAt(e, pattern, i) && pattern != ""
    ensures e[i] == pattern[0]
  {
    assert e[i..i + |pattern|][0] == e[i];
  }

  lemma PatternAtEnd(e: Bytes, p: nat)
    requires p <= |e| && forall i | 0 <= i < |e| - p :: e[i] != '='
    ensures forall i | 0 <= i <= |e| && (OccursAt(e, "===", i) || OccursAt(e, "==", i) || OccursAt(e, "=", i)) ::
      i >= |e| - p
  {
    hide OccursAt;
    forall i | 0 <= i <= |e| && (OccursAt(e, "===", i) || OccursAt(e, "==", i) || OccursAt(e, "=", i))
      ensures i >= |e| - p
    {
      if OccursAt(e, "===", i) { StartsHere(e, "===", i); }
      else if OccursAt(e, "==", i) { StartsHere(e, "==", i); }
      else { StartsHere(e, "=", i); }
    }
  }
}
