// The byte streams over which SQS attribute digests are taken.
module SqsUtils {
  import opened Bytes
  import opened Digest
  import opened StringUtils
  import opened Sequences
  import opened Wrappers

  datatype AttributeType = STRING | STRING_LIST | NUMBER | NUMBER_LIST | BINARY | BINARY_LIST | UNKNOWN

  datatype Attribute = Attribute(dataType: AttributeType, stringValue: Bytes, binaryValue: Bytes)

  function TypeName(t: AttributeType): Bytes {
    match t
    case STRING => "String"
    case STRING_LIST => "StringList"
    case NUMBER => "Number"
    case NUMBER_LIST => "NumberList"
    case BINARY => "Binary"
    case BINARY_LIST => "BinaryList"
    case UNKNOWN => "Unknown"
  }

  // ---- the four bytes of a length ----

  const WORD: int := 0x1_0000_0000

  function BigEndian(n: nat): (b: Bytes)
    ensures |b| == 4
  {
    [(n / 0x100_0000 % 256) as char, (n / 0x1_0000 % 256) as char, (n / 0x100 % 256) as char, (n % 256) as char]
  }

  function FromBigEndian(b: Bytes): nat
    requires |b| == 4
  {
    0x100_0000 * b[0] as int + 0x1_0000 * b[1] as int + 0x100 * b[2] as int + b[3] as int
  }

  lemma BigEndianInverse(n: nat)
    requires n < WORD
    ensures FromBigEndian(BigEndian(n)) == n
  {
    var a, b := n / 0x1_0000, n % 0x1_0000;
    assert n / 0x100_0000 == a / 0x100;
    assert n / 0x100 % 256 == b / 0x100;
    assert n % 256 == b % 256;
  }

  // The bits of n that the mask from bit weight low up to bit weight high keeps.
  function Masked(n: nat, low: nat, high: nat): nat
    requires 0 < low && 0 < high
  {
    if n % high < n % low then 0 else n % high - n % low
  }

  // Each byte of the low 32 bits is masked out and shifted down; the highest comes first in the buffer.
  method GetIntAsByteArray(n: nat, bytes: array<Byte>)
    requires bytes.Length == 4
    modifies bytes
    ensures bytes[..] == BigEndian(n)
  {
    MaskShift(n);
    bytes[3] := Masked(n, 1, 0x100) as char;
    bytes[2] := (Masked(n, 0x100, 0x1_0000) / 0x100) as char;
    bytes[1] := (Masked(n, 0x1_0000, 0x100_0000) / 0x1_0000) as char;
    bytes[0] := (Masked(n, 0x100_0000, WORD) / 0x100_0000) as char;
  }

  // The bytes of n, lowest first, and what is above them.
  lemma FourBytes(n: nat) returns (b0: nat, b1: nat, b2: nat, b3: nat, h: nat)
    ensures b0 < 256 && b1 < 256 && b2 < 256 && b3 < 256
    ensures n == b0 + 0x100 * b1 + 0x1_0000 * b2 + 0x100_0000 * b3 + WORD * h
    ensures n % 256 == b0 && n / 0x100 % 256 == b1 && n / 0x1_0000 % 256 == b2 && n / 0x100_0000 % 256 == b3
    ensures n % 0x1_0000 == b0 + 0x100 * b1 && n % 0x100_0000 == b0 + 0x100 * b1 + 0x1_0000 * b2
    ensures n % WORD == b0 + 0x100 * b1 + 0x1_0000 * b2 + 0x100_0000 * b3
  {
    b0, b1 := n % 256, n / 0x100 % 256;
    b2, b3 := n / 0x1_0000 % 256, n / 0x100_0000 % 256;
    h := n / WORD;
    var n1, n2, n3 := n / 0x100, n / 0x1_0000, n / 0x100_0000;
    assert n == 0x100 * n1 + b0;
    assert n1 == 0x100 * n2 + b1;
    assert n2 == 0x100 * n3 + b2;
    assert n3 == 0x100 * h + b3;
  }

  lemma MaskShift(n: nat)
    ensures Masked(n, 1, 0x100) == n % 256
    ensures Masked(n, 0x100, 0x1_0000) / 0x100 == n / 0x100 % 256
    ensures Masked(n, 0x1_0000, 0x100_0000) / 0x1_0000 == n / 0x1_0000 % 256
    ensures Masked(n, 0x100_0000, WORD) / 0x100_0000 == n / 0x100_0000 % 256
  {
    var b0, b1, b2, b3, h := FourBytes(n);
    assert Masked(n, 0x100, 0x1_0000) == 0x100 * b1;
    assert Masked(n, 0x1_0000, 0x100_0000) == 0x1_0000 * b2;
    assert Masked(n, 0x100_0000, WORD) == 0x100_0000 * b3;
  }

  // htonl on a little-endian machine, and the bytes it leaves in memory.
  function SwapBytes(x: nat): nat
    requires x < WORD
  {
    x % 256 * 0x100_0000 + x / 0x100 % 256 * 0x1_0000 + x / 0x1_0000 % 256 * 0x100 + x / 0x100_0000
  }

  function Memory(x: nat): Bytes
    requires x < WORD
  {
    [(x % 256) as char, (x / 0x100 % 256) as char, (x / 0x1_0000 % 256) as char, (x / 0x100_0000) as char]
  }

  lemma BytesOf(b0: nat, b1: nat, b2: nat, b3: nat)
    requires b0 < 256 && b1 < 256 && b2 < 256 && b3 < 256
    ensures var x := b0 + 0x100 * b1 + 0x1_0000 * b2 + 0x100_0000 * b3;
      x < WORD && x % 256 == b0 && x / 0x100 % 256 == b1 && x / 0x1_0000 % 256 == b2 && x / 0x100_0000 == b3
  {
    var x := b0 + 0x100 * b1 + 0x1_0000 * b2 + 0x100_0000 * b3;
    assert x / 0x100 == b1 + 0x100 * b2 + 0x1_0000 * b3;
    assert x / 0x1_0000 == b2 + 0x100 * b3;
  }

  lemma HtonlIsBigEndian(n: nat)
    ensures SwapBytes(n % WORD) < WORD && Memory(SwapBytes(n % WORD)) == BigEndian(n)
  {
    var b0, b1, b2, b3, h := FourBytes(n);
    BytesOf(b0, b1, b2, b3);
    BytesOf(b3, b2, b1, b0);
  }

  // ---- the stream that is hashed ----

  function Chunk(s: Bytes): Bytes {
    BigEndian(|s|) + s
  }

  function Value(a: Attribute): Option<Bytes> {
    match a.dataType
    case STRING => Some(a.stringValue)
    case NUMBER => Some(a.stringValue)
    case BINARY => Some(a.binaryValue)
    case _ => None
  }

  function Transport(a: Attribute): Bytes {
    match a.dataType
    case BINARY => [2 as char] + Chunk(a.binaryValue)
    case STRING => [1 as char] + Chunk(a.stringValue)
    case NUMBER => [1 as char] + Chunk(a.stringValue)
    case _ => ""
  }

  function Entry(name: Bytes, a: Attribute): Bytes {
    Chunk(name) + Chunk(TypeName(a.dataType)) + Transport(a)
  }

  function Entries(m: map<Bytes, Attribute>, names: seq<Bytes>): Bytes
    requires forall n <- names :: n in m
  {
    if names == [] then "" else Entry(names[0], m[names[0]]) + Entries(m, names[1..])
  }

  function UserStream(m: map<Bytes, Attribute>): Bytes {
    Entries(m, Ascending(m.Keys))
  }

  method UpdateLengthAndBytes(context: DigestContext, str: Bytes)
    modifies context
    ensures context.fed == old(context.fed) + Chunk(str)
  {
    var bytes := new Byte[4];
    GetIntAsByteArray(|str|, bytes);
    context.Update(bytes[..]);
    context.Update(str);
    assert old(context.fed) + BigEndian(|str|) + str == old(context.fed) + Chunk(str);
  }

  // The length of a binary value goes through htonl.
  method UpdateLengthAndRawBytes(context: DigestContext, data: Bytes)
    modifies context
    ensures context.fed == old(context.fed) + Chunk(data)
  {
    HtonlIsBigEndian(|data|);
    context.Update(Memory(SwapBytes(|data| % WORD)));
    context.Update(data);
    assert old(context.fed) + BigEndian(|data|) + data == old(context.fed) + Chunk(data);
  }

  method UpdateTransport(context: DigestContext, a: Attribute)
    modifies context
    ensures context.fed == old(context.fed) + Transport(a)
  {
    hide Chunk;
    if a.dataType == STRING || a.dataType == NUMBER {
      context.Update([1 as char]);
      UpdateLengthAndBytes(context, a.stringValue);
    } else if a.dataType == BINARY {
      context.Update([2 as char]);
      UpdateLengthAndRawBytes(context, a.binaryValue);
    }
  }

  method UpdateEntry(context: DigestContext, name: Bytes, a: Attribute)
    modifies context
    ensures context.fed == old(context.fed) + Entry(name, a)
  {
    hide Chunk, Transport;
    UpdateLengthAndBytes(context, name);
    UpdateLengthAndBytes(context, TypeName(a.dataType));
    UpdateTransport(context, a);
    assert old(context.fed) + Chunk(name) + Chunk(TypeName(a.dataType)) + Transport(a)
        == old(context.fed) + Entry(name, a);
  }

  lemma EntriesStep(m: map<Bytes, Attribute>, names: seq<Bytes>, i: nat, fed: Bytes)
    requires i < |names| && forall n <- names :: n in m
    ensures names[i] in names
    ensures fed + Entries(m, names[i..]) == fed + Entry(names[i], m[names[i]]) + Entries(m, names[i + 1..])
  {
    hide Entry;
    assert names[i..][1..] == names[i + 1..];
    Regroup(fed, Entry(names[i], m[names[i]]), Entries(m, names[i + 1..]));
  }

  // digest is HexEncode of the MD5 sum of the bytes fed to the context.
  method CreateMd5OfMessageAttributes(digest: Bytes -> Bytes, m: map<Bytes, Attribute>) returns (md5: Bytes)
    ensures md5 == digest(UserStream(m))
  {
    var context := new DigestContext();
    var names := Ascending(m.Keys);
    assert names[0..] == names && context.fed + Entries(m, names) == UserStream(m);
    for i := 0 to |names|
      invariant context.fed + Entries(m, names[i..]) == UserStream(m)
    {
      hide Entry;
      EntriesStep(m, names, i, context.fed);
      UpdateEntry(context, names[i], m[names[i]]);
    }
    assert names[|names|..] == [] && Entries(m, []) == "";
    assert context.fed + "" == context.fed;
    md5 := digest(context.fed);
  }

  // ---- the stream, written out ----

  // A name, a type and, for the three types with one value, a byte and the value, each with its length in front.
  lemma EntryText(name: Bytes, a: Attribute)
    ensures Entry(name, a) == (BigEndian(|name|) + name) + match a.dataType
      case STRING => (BigEndian(6) + "String") + ([1 as char] + (BigEndian(|a.stringValue|) + a.stringValue))
      case STRING_LIST => BigEndian(10) + "StringList"
      case NUMBER => (BigEndian(6) + "Number") + ([1 as char] + (BigEndian(|a.stringValue|) + a.stringValue))
      case NUMBER_LIST => BigEndian(10) + "NumberList"
      case BINARY => (BigEndian(6) + "Binary") + ([2 as char] + (BigEndian(|a.binaryValue|) + a.binaryValue))
      case BINARY_LIST => BigEndian(10) + "BinaryList"
      case UNKNOWN => BigEndian(7) + "Unknown"
  {
    hide BigEndian;
    var c, t, v := BigEndian(|name|) + name, Chunk(TypeName(a.dataType)), Transport(a);
    Regroup(c, t, v);
    assert t + "" == t;
  }

  lemma {:induction false} EntriesAgree(m: map<Bytes, Attribute>, n: map<Bytes, Attribute>, names: seq<Bytes>)
    requires forall k <- names :: k in m && k in n && m[k] == n[k]
    ensures Entries(m, names) == Entries(n, names)
  {
    if names != [] {
      assert names[0] in names;
      EntriesAgree(m, n, names[1..]);
    }
  }

  // The attributes follow each other in the order of their names.
  lemma UserStreamText(m: map<Bytes, Attribute>, k: Bytes)
    ensures UserStream(map[]) == ""
    ensures IsLeast(k, m.Keys) ==> UserStream(m) == Entry(k, m[k]) + UserStream(m - {k})
  {
    hide Entry;
    if IsLeast(k, m.Keys) {
      LeastUnique(m.Keys);
      assert (m - {k}).Keys == m.Keys - {k};
      EntriesAgree(m, m - {k}, Ascending(m.Keys - {k}));
      assert Ascending(m.Keys)[1..] == Ascending(m.Keys - {k});
    }
  }

  // ---- the stream can be read back ----

  datatype Item = Item(name: Bytes, dataType: AttributeType, value: Option<Bytes>)

  datatype Read<T> = Read(value: T, rest: Bytes)

  function ReadChunk(s: Bytes): (r: Option<Read<Bytes>>)
    ensures r.Some? ==> |r.value.rest| < |s|
  {
    if |s| < 4 then None
    else
      var n := FromBigEndian(s[..4]);
      if |s| < 4 + n then None else Some(Read(s[4..4 + n], s[4 + n..]))
  }

  function TypeOf(name: Bytes): Option<AttributeType> {
    if name == "String" then Some(STRING)
    else if name == "StringList" then Some(STRING_LIST)
    else if name == "Number" then Some(NUMBER)
    else if name == "NumberList" then Some(NUMBER_LIST)
    else if name == "Binary" then Some(BINARY)
    else if name == "BinaryList" then Some(BINARY_LIST)
    else if name == "Unknown" then Some(UNKNOWN)
    else None
  }

  predicate Transported(t: AttributeType) {
    t == STRING || t == NUMBER || t == BINARY
  }

  function ReadItem(s: Bytes): (r: Option<Read<Item>>)
    ensures r.Some? ==> |r.value.rest| < |s|
  {
    match ReadChunk(s)
    case None => None
    case Some(name) =>
      match ReadChunk(name.rest)
      case None => None
      case Some(t) =>
        if TypeOf(t.value).None? then None
        else
          var dataType := TypeOf(t.value).value;
          if !Transported(dataType) then Some(Read(Item(name.value, dataType, None), t.rest))
          else if t.rest == "" || t.rest[0] as int != (if dataType == BINARY then 2 else 1) then None
          else
            match ReadChunk(t.rest[1..])
            case None => None
            case Some(v) => Some(Read(Item(name.value, dataType, Some(v.value)), v.rest))
  }

  function ReadItems(s: Bytes): Option<seq<Item>>
    decreases |s|
  {
    if s == "" then Some([])
    else
      match ReadItem(s)
      case None => None
      case Some(r) =>
        match ReadItems(r.rest)
        case None => None
        case Some(items) => Some([r.value] + items)
  }

  function ItemOf(name: Bytes, a: Attribute): Item {
    Item(name, a.dataType, Value(a))
  }

  function Items(m: map<Bytes, Attribute>, names: seq<Bytes>): seq<Item>
    requires forall n <- names :: n in m
  {
    if names == [] then [] else [ItemOf(names[0], m[names[0]])] + Items(m, names[1..])
  }

  predicate Fits(s: Bytes) {
    |s| < WORD
  }

  predicate AttributesFit(m: map<Bytes, Attribute>) {
    forall n <- m :: Fits(n) && Fits(m[n].stringValue) && Fits(m[n].binaryValue)
  }

  lemma ReadWrittenChunk(s: Bytes, rest: Bytes)
    requires Fits(s)
    ensures ReadChunk(Chunk(s) + rest) == Some(Read(s, rest))
  {
    BigEndianInverse(|s|);
    var w := Chunk(s) + rest;
    assert w[..4] == BigEndian(|s|);
    assert w[4..4 + |s|] == s && w[4 + |s|..] == rest;
  }

  lemma ReadWrittenItem(name: Bytes, a: Attribute, rest: Bytes)
    requires Fits(name) && Fits(a.stringValue) && Fits(a.binaryValue)
    ensures ReadItem(Entry(name, a) + rest) == Some(Read(ItemOf(name, a), rest))
  {
    hide ReadChunk, Chunk;
    var tail := Transport(a) + rest;
    assert Entry(name, a) + rest == Chunk(name) + (Chunk(TypeName(a.dataType)) + tail);
    ReadWrittenChunk(name, Chunk(TypeName(a.dataType)) + tail);
    ReadWrittenChunk(TypeName(a.dataType), tail);
    if Transported(a.dataType) {
      assert tail[1..] == Chunk(Value(a).value) + rest;
      ReadWrittenChunk(Value(a).value, rest);
    } else {
      assert tail == rest;
    }
  }

  lemma {:induction false} ReadWrittenItems(m: map<Bytes, Attribute>, names: seq<Bytes>)
    requires AttributesFit(m) && forall n <- names :: n in m
    ensures ReadItems(Entries(m, names)) == Some(Items(m, names))
  {
    if names != [] {
      var name := names[0];
      assert name in names;
      ReadWrittenItem(name, m[name], Entries(m, names[1..]));
      ReadWrittenItems(m, names[1..]);
      assert Entries(m, names) == Entry(name, m[name]) + Entries(m, names[1..]);
      assert Entries(m, names) != "";
    }
  }

  lemma {:induction false} ItemsTell(m: map<Bytes, Attribute>, names: seq<Bytes>)
    requires forall n <- names :: n in m
    ensures |Items(m, names)| == |names|
    ensures forall i | 0 <= i < |names| :: Items(m, names)[i] == ItemOf(names[i], m[names[i]])
  {
    if names != [] { ItemsTell(m, names[1..]); }
  }

  // Two attribute maps are hashed over the same bytes only if they carry the same names, types and transported values.
  lemma UserStreamDecodable(m: map<Bytes, Attribute>, n: map<Bytes, Attribute>)
    requires AttributesFit(m) && AttributesFit(n)
    ensures UserStream(m) == UserStream(n) <==>
      m.Keys == n.Keys && forall k <- m :: m[k].dataType == n[k].dataType && Value(m[k]) == Value(n[k])
  {
    hide ReadItems, Entries, Value;
    var a, b := Ascending(m.Keys), Ascending(n.Keys);
    if UserStream(m) == UserStream(n) {
      ReadWrittenItems(m, a);
      ReadWrittenItems(n, b);
      SameItems(m, n);
    }
    if m.Keys == n.Keys && forall k <- m :: m[k].dataType == n[k].dataType && Value(m[k]) == Value(n[k]) {
      SameEntries(m, n, a);
    }
  }

  lemma SameKeys(j: set<Bytes>, k: set<Bytes>)
    requires Ascending(j) == Ascending(k)
    ensures j == k
  {
    hide Ascending;
    forall x: Bytes ensures x in j <==> x in k { assert x in Ascending(j) <==> x in j; }
  }

  lemma SameItems(m: map<Bytes, Attribute>, n: map<Bytes, Attribute>)
    requires Items(m, Ascending(m.Keys)) == Items(n, Ascending(n.Keys))
    ensures m.Keys == n.Keys && forall k <- m :: m[k].dataType == n[k].dataType && Value(m[k]) == Value(n[k])
  {
    hide Items, Value, Ascending;
    var a, b := Ascending(m.Keys), Ascending(n.Keys);
    ItemsTell(m, a);
    ItemsTell(n, b);
    assert Names(Items(m, a)) == a && Names(Items(n, b)) == b;
    SameKeys(m.Keys, n.Keys);
    forall k <- m ensures m[k].dataType == n[k].dataType && Value(m[k]) == Value(n[k]) {
      assert k in a;
      var i :| 0 <= i < |a| && a[i] == k;
      assert Items(m, a)[i] == Items(n, b)[i];
    }
  }

  function Names(items: seq<Item>): seq<Bytes> {
    seq(|items|, i requires 0 <= i < |items| => items[i].name)
  }

  lemma {:induction false} SameEntries(m: map<Bytes, Attribute>, n: map<Bytes, Attribute>, names: seq<Bytes>)
    requires m.Keys == n.Keys && forall k <- m :: m[k].dataType == n[k].dataType && Value(m[k]) == Value(n[k])
    requires forall k <- names :: k in m
    ensures Entries(m, names) == Entries(n, names)
  {
    if names != [] {
      assert names[0] in names;
      SameEntries(m, n, names[1..]);
    }
  }

  // ---- system attributes: plain strings, whose tag and value are left out when the string is empty ----

  predicate Decodable(m: map<Bytes, Bytes>) {
    forall k <- m :: UrlDecode(m[k]).Some?
  }

  function SystemValue(v: Bytes): Bytes
    requires UrlDecode(v).Some?
  {
    if v == "" then "" else [1 as char] + Chunk(UrlDecode(v).value)
  }

  function SystemEntry(name: Bytes, v: Bytes): Bytes
    requires UrlDecode(v).Some?
  {
    Chunk(name) + Chunk("String") + SystemValue(v)
  }

  function SystemEntries(m: map<Bytes, Bytes>, names: seq<Bytes>): Bytes
    requires Decodable(m) && forall n <- names :: n in m
  {
    if names == [] then ""
    else assert names[0] in names; SystemEntry(names[0], m[names[0]]) + SystemEntries(m, names[1..])
  }

  function SystemStream(m: map<Bytes, Bytes>): Bytes
    requires Decodable(m)
  {
    SystemEntries(m, Ascending(m.Keys))
  }

  lemma SystemEntriesStep(m: map<Bytes, Bytes>, names: seq<Bytes>, i: nat, fed: Bytes)
    requires Decodable(m) && i < |names| && forall n <- names :: n in m
    ensures names[i] in names
    ensures fed + SystemEntries(m, names[i..])
         == fed + SystemEntry(names[i], m[names[i]]) + SystemEntries(m, names[i + 1..])
  {
    hide SystemEntry;
    assert names[i..][1..] == names[i + 1..];
    Regroup(fed, SystemEntry(names[i], m[names[i]]), SystemEntries(m, names[i + 1..]));
  }

  // A value that UrlDecode rejects ends the call with an exception: None.
  method CreateMd5OfMessageSystemAttributes(digest: Bytes -> Bytes, m: map<Bytes, Bytes>)
    returns (md5: Option<Bytes>)
    ensures md5 == if Decodable(m) then Some(digest(SystemStream(m))) else None
  {
    hide SystemEntry, SystemEntries, UrlDecode, Ascending;
    var context := new DigestContext();
    var names := Ascending(m.Keys);
    assert names[0..] == names;
    for i := 0 to |names|
      invariant forall k <- names[..i] :: UrlDecode(m[k]).Some?
      invariant Decodable(m) ==> context.fed + SystemEntries(m, names[i..]) == SystemStream(m)
    {
      assert names[i] in names;
      if Decodable(m) { SystemEntriesStep(m, names, i, context.fed); }
      var decoded := UpdateSystemEntry(context, names[i], m[names[i]]);
      if !decoded { return None; }
      assert names[..i + 1] == names[..i] + [names[i]];
    }
    assert names[..|names|] == names;
    if Decodable(m) { NoSystemEntries(m, names[|names|..]); }
    assert context.fed + "" == context.fed;
    return Some(digest(context.fed));
  }

  lemma NoSystemEntries(m: map<Bytes, Bytes>, names: seq<Bytes>)
    requires Decodable(m) && names == []
    ensures SystemEntries(m, names) == ""
  {
  }

  method UpdateSystemEntry(context: DigestContext, name: Bytes, v: Bytes) returns (ok: bool)
    modifies context
    ensures ok <==> UrlDecode(v).Some?
    ensures ok ==> context.fed == old(context.fed) + SystemEntry(name, v)
  {
    hide Chunk, UrlDecode;
    var before := context.fed;
    UpdateLengthAndBytes(context, name);
    UpdateLengthAndBytes(context, "String");
    DecodesToNothing(v);
    if v != "" {
      context.Update([1 as char]);
      var decoded := UrlDecode(v);
      if decoded.None? { return false; }
      UpdateLengthAndBytes(context, decoded.value);
    }
    EntryFed(before, name, v, context.fed);
    return true;
  }

  lemma EntryFed(before: Bytes, name: Bytes, v: Bytes, after: Bytes)
    requires UrlDecode(v).Some?
    requires v == "" ==> after == before + Chunk(name) + Chunk("String")
    requires v != "" ==> after == before + Chunk(name) + Chunk("String") + [1 as char] + Chunk(UrlDecode(v).value)
    ensures after == before + SystemEntry(name, v)
  {
    hide Chunk, UrlDecode;
  }

  // ---- the stream of the system attributes, written out and read back ----

  lemma SystemEntryText(name: Bytes, v: Bytes)
    requires UrlDecode(v).Some?
    ensures SystemEntry(name, v) == (BigEndian(|name|) + name) + (BigEndian(6) + "String") +
      if v == "" then "" else [1 as char] + (BigEndian(|UrlDecode(v).value|) + UrlDecode(v).value)
  {
    hide BigEndian, UrlDecode;
  }

  lemma {:induction false} SystemEntriesAgree(m: map<Bytes, Bytes>, n: map<Bytes, Bytes>, names: seq<Bytes>)
    requires Decodable(m) && Decodable(n) && forall k <- names :: k in m && k in n && m[k] == n[k]
    ensures SystemEntries(m, names) == SystemEntries(n, names)
  {
    if names != [] {
      assert names[0] in names;
      SystemEntriesAgree(m, n, names[1..]);
    }
  }

  lemma SystemStreamText(m: map<Bytes, Bytes>, k: Bytes)
    requires Decodable(m)
    ensures SystemStream(map[]) == ""
    ensures IsLeast(k, m.Keys) ==>
      Decodable(m - {k}) && SystemStream(m) == SystemEntry(k, m[k]) + SystemStream(m - {k})
  {
    hide SystemEntry, UrlDecode;
    if IsLeast(k, m.Keys) {
      LeastUnique(m.Keys);
      assert (m - {k}).Keys == m.Keys - {k};
      SystemEntriesAgree(m, m - {k}, Ascending(m.Keys - {k}));
      assert Ascending(m.Keys)[1..] == Ascending(m.Keys - {k});
    }
  }

  // Reading back: a byte 1 where the next name's length could start announces a value.
  function ReadSystemItem(s: Bytes): (r: Option<Read<(Bytes, Bytes)>>)
    ensures r.Some? ==> |r.value.rest| < |s|
  {
    match ReadChunk(s)
    case None => None
    case Some(name) =>
      match ReadChunk(name.rest)
      case None => None
      case Some(t) =>
        if t.rest == "" || t.rest[0] != 1 as char then Some(Read((name.value, ""), t.rest))
        else
          match ReadChunk(t.rest[1..])
          case None => None
          case Some(v) => Some(Read((name.value, v.value), v.rest))
  }

  function ReadSystemItems(s: Bytes): Option<seq<(Bytes, Bytes)>>
    decreases |s|
  {
    if s == "" then Some([])
    else
      match ReadSystemItem(s)
      case None => None
      case Some(r) =>
        match ReadSystemItems(r.rest)
        case None => None
        case Some(items) => Some([r.value] + items)
  }

  function SystemItems(m: map<Bytes, Bytes>, names: seq<Bytes>): (r: seq<(Bytes, Bytes)>)
    requires Decodable(m) && forall n <- names :: n in m
    ensures |r| == |names| && forall i | 0 <= i < |names| ::
      names[i] in names && r[i] == (names[i], UrlDecode(m[names[i]]).value)
  {
    if names == [] then []
    else assert names[0] in names; [(names[0], UrlDecode(m[names[0]]).value)] + SystemItems(m, names[1..])
  }

  const NAME_BOUND: int := 0x100_0000

  predicate SystemFits(m: map<Bytes, Bytes>, bound: int)
    requires Decodable(m)
  {
    forall k <- m :: |k| < bound && |k| < WORD && Fits(UrlDecode(m[k]).value)
  }

  lemma ReadWrittenSystemItem(name: Bytes, v: Bytes, rest: Bytes)
    requires Fits(name) && UrlDecode(v).Some? && Fits(UrlDecode(v).value)
    requires rest == "" || rest[0] == 0 as char
    ensures ReadSystemItem(SystemEntry(name, v) + rest) == Some(Read((name, UrlDecode(v).value), rest))
  {
    hide ReadChunk, Chunk, UrlDecode;
    DecodesToNothing(v);
    var tail := SystemValue(v) + rest;
    assert SystemEntry(name, v) + rest == Chunk(name) + (Chunk("String") + tail);
    ReadWrittenChunk(name, Chunk("String") + tail);
    ReadWrittenChunk("String", tail);
    if v == "" {
      assert tail == rest;
    } else {
      assert tail[1..] == Chunk(UrlDecode(v).value) + rest;
      ReadWrittenChunk(UrlDecode(v).value, rest);
    }
  }

  lemma ShortNameStartsWithZero(m: map<Bytes, Bytes>, names: seq<Bytes>)
    requires Decodable(m) && SystemFits(m, NAME_BOUND) && forall n <- names :: n in m
    ensures SystemEntries(m, names) == "" <==> names == []
    ensures names != [] ==> SystemEntries(m, names)[0] == 0 as char
  {
    if names != [] {
      assert names[0] in names;
      assert |names[0]| / 0x100_0000 == 0;
      assert Chunk(names[0])[0] == 0 as char;
      assert SystemEntries(m, names) == SystemEntry(names[0], m[names[0]]) + SystemEntries(m, names[1..]);
    }
  }

  lemma {:induction false} ReadWrittenSystemItems(m: map<Bytes, Bytes>, names: seq<Bytes>)
    requires Decodable(m) && SystemFits(m, NAME_BOUND) && forall n <- names :: n in m
    ensures ReadSystemItems(SystemEntries(m, names)) == Some(SystemItems(m, names))
  {
    hide SystemEntry, ReadSystemItem, UrlDecode;
    if names != [] {
      var name := names[0];
      assert name in names;
      ShortNameStartsWithZero(m, names[1..]);
      ShortNameStartsWithZero(m, names);
      ReadWrittenSystemItem(name, m[name], SystemEntries(m, names[1..]));
      ReadWrittenSystemItems(m, names[1..]);
    }
  }

  predicate SameSystemAttributes(m: map<Bytes, Bytes>, n: map<Bytes, Bytes>) {
    m.Keys == n.Keys && forall k <- m :: UrlDecode(m[k]) == UrlDecode(n[k])
  }

  // Unlike user attributes, only names short enough that their length starts with a zero byte are safe.
  lemma SystemStreamDecodable(m: map<Bytes, Bytes>, n: map<Bytes, Bytes>)
    requires Decodable(m) && Decodable(n) && SystemFits(m, NAME_BOUND) && SystemFits(n, NAME_BOUND)
    ensures SystemStream(m) == SystemStream(n) <==> SameSystemAttributes(m, n)
  {
    hide UrlDecode, SystemEntries, SystemItems, ReadSystemItems, SystemFits;
    var a, b := Ascending(m.Keys), Ascending(n.Keys);
    if SystemStream(m) == SystemStream(n) {
      ReadWrittenSystemItems(m, a);
      ReadWrittenSystemItems(n, b);
      SystemItemsTell(m, n);
    }
    if SameSystemAttributes(m, n) {
      SameSystemEntries(m, n, a);
    }
  }

  lemma SystemItemsTell(m: map<Bytes, Bytes>, n: map<Bytes, Bytes>)
    requires Decodable(m) && Decodable(n)
    requires SystemItems(m, Ascending(m.Keys)) == SystemItems(n, Ascending(n.Keys))
    ensures SameSystemAttributes(m, n)
  {
    hide UrlDecode, SystemItems, Ascending;
    var a, b := Ascending(m.Keys), Ascending(n.Keys);
    assert |a| == |SystemItems(m, a)| == |SystemItems(n, b)| == |b|;
    forall i | 0 <= i < |a| ensures a[i] == b[i] { assert SystemItems(m, a)[i] == SystemItems(n, b)[i]; }
    assert a == b;
    SameKeys(m.Keys, n.Keys);
    forall k <- m ensures UrlDecode(m[k]) == UrlDecode(n[k]) {
      assert k in a;
      var i :| 0 <= i < |a| && a[i] == k;
      assert SystemItems(m, a)[i] == SystemItems(n, b)[i];
    }
  }

  lemma {:induction false} SameSystemEntries(m: map<Bytes, Bytes>, n: map<Bytes, Bytes>, names: seq<Bytes>)
    requires Decodable(m) && Decodable(n) && SameSystemAttributes(m, n)
    requires forall k <- names :: k in m
    ensures SystemEntries(m, names) == SystemEntries(n, names)
  {
    if names != [] {
      assert names[0] in names;
      DecodesToNothing(m[names[0]]);
      DecodesToNothing(n[names[0]]);
      SameSystemEntries(m, n, names[1..]);
    }
  }

  lemma DecodesToNothing(v: Bytes)
    ensures UrlDecode(v) == Some("") <==> v == ""
  {
  }

  // The bound of 2^24 bytes is the largest one: a name of exactly that length starts with the byte that tags a value.
  lemma BoundIsExact(bound: int)
    requires 0 < bound <= WORD
    ensures bound <= NAME_BOUND <==>
      forall m, n | Decodable(m) && Decodable(n) && SystemFits(m, bound) && SystemFits(n, bound) ::
        SystemStream(m) == SystemStream(n) ==> SameSystemAttributes(m, n)
  {
    hide UrlDecode, SystemStream;
    if bound <= NAME_BOUND {
      forall m, n | Decodable(m) && Decodable(n) && SystemFits(m, bound) && SystemFits(n, bound)
        && SystemStream(m) == SystemStream(n)
        ensures SameSystemAttributes(m, n)
      {
        SystemStreamDecodable(m, n);
      }
    } else {
      var t := seq(NAME_BOUND - 6, i => 'a');
      LongNameCollides(t);
    }
  }

  function LongName(t: Bytes): Bytes {
    [1 as char] + "a" + Chunk(t)
  }

  lemma LongNameCollides(t: Bytes)
    requires |t| == NAME_BOUND - 6
    ensures var m, n := map["" := "", LongName(t) := ""], map["" := "a", t := ""];
      Decodable(m) && Decodable(n) && SystemFits(m, NAME_BOUND + 1) && SystemFits(n, NAME_BOUND + 1)
      && SystemStream(m) == SystemStream(n) && !SameSystemAttributes(m, n)
  {
    hide UrlDecode, SystemStream, SystemEntry, LongName;
    var m, n := map["" := "", LongName(t) := ""], map["" := "a", t := ""];
    CollidingBytes(t);
    LongNameLength(t);
    assert m.Keys == {"", LongName(t)} && n.Keys == {"", t};
    TwoEntries(m, LongName(t));
    TwoEntries(n, t);
    assert UrlDecode(m[""]) != UrlDecode(n[""]);
  }

  lemma LongNameLength(t: Bytes)
    ensures |LongName(t)| == |t| + 6
  {
  }

  lemma TwoNames(t: Bytes)
    requires t != ""
    ensures Ascending({"", t}) == ["", t]
  {
    var keys := {"", t};
    assert IsLeast("", keys);
    LeastUnique(keys);
    assert keys - {""} == {t};
    assert Least({t}) == t && {t} - {t} == {};
    assert Ascending({t}) == [t] + Ascending({t} - {t});
  }

  lemma TwoEntries(m: map<Bytes, Bytes>, t: Bytes)
    requires Decodable(m) && t != "" && m.Keys == {"", t}
    ensures SystemStream(m) == SystemEntry("", m[""]) + SystemEntry(t, m[t])
  {
    hide SystemEntry;
    TwoNames(t);
    var names := ["", t];
    assert names[1..] == [t] && names[1..][1..] == [];
    assert SystemEntries(m, [t]) == SystemEntry(t, m[t]) + SystemEntries(m, []);
  }

  lemma CollidingBytes(t: Bytes)
    requires |t| == NAME_BOUND - 6
    ensures UrlDecode("") == Some("") && UrlDecode("a") == Some("a")
    ensures SystemEntry("", "") + SystemEntry(LongName(t), "") == SystemEntry("", "a") + SystemEntry(t, "")
  {
    DecodesToNothing("");
    DecodesToItself('a');
    var one: Bytes := [1 as char];
    var zeros: Bytes := [0 as char, 0 as char, 0 as char];
    assert BigEndian(NAME_BOUND) == one + zeros;
    assert BigEndian(1) == zeros + one;
    RegroupColliding(Chunk("") + Chunk("String"), one, zeros, "a", Chunk(t), Chunk("String"));
  }

  lemma DecodesToItself(c: Byte)
    requires c != '%' && c != '+'
    ensures UrlDecode([c]) == Some([c])
  {
    assert [c][1..] == "" && [c] + "" == [c];
  }

  lemma RegroupColliding(head: Bytes, one: Bytes, zeros: Bytes, v: Bytes, t: Bytes, tail: Bytes)
    ensures head + "" + (one + zeros + (one + v + t) + tail + "") == head + (one + (zeros + one + v)) + (t + tail + "")
  {
  }

  // Where every value is non-empty and unchanged by decoding, both digests are taken over the same bytes.
  function AsUserAttributes(m: map<Bytes, Bytes>): map<Bytes, Attribute> {
    map k | k in m :: Attribute(STRING, m[k], "")
  }

  lemma SystemStreamIsUserStream(m: map<Bytes, Bytes>)
    requires forall k <- m :: m[k] != "" && UrlDecode(m[k]) == Some(m[k])
    ensures SystemStream(m) == UserStream(AsUserAttributes(m))
  {
    assert AsUserAttributes(m).Keys == m.Keys;
    SameEntriesAsUser(m, Ascending(m.Keys));
  }

  lemma {:induction false} SameEntriesAsUser(m: map<Bytes, Bytes>, names: seq<Bytes>)
    requires forall k <- m :: m[k] != "" && UrlDecode(m[k]) == Some(m[k])
    requires forall k <- names :: k in m
    ensures SystemEntries(m, names) == Entries(AsUserAttributes(m), names)
  {
    if names != [] {
      assert names[0] in names;
      SameEntriesAsUser(m, names[1..]);
    }
  }
}
