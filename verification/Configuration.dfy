// The configuration tree: dotted paths in ConfigPath, the object that owns the tree in Configuration.
module ConfigPath {
  import opened JsonText
  import opened Wrappers

  // ---- dotted paths ----

  function SplitFrom(path: string, seg: string): seq<string> {
    if path == "" then (if seg == "" then [] else [seg])
    else if path[0] == '.' then (if seg == "" then [] else [seg]) + SplitFrom(path[1..], "")
    else SplitFrom(path[1..], seg + [path[0]])
  }

  function Split(path: string): seq<string> {
    SplitFrom(path, "")
  }

  predicate Segment(s: string) {
    s != "" && '.' !in s
  }

  function Join(segs: seq<string>): string {
    if segs == [] then "" else if |segs| == 1 then segs[0] else segs[0] + "." + Join(segs[1..])
  }

  lemma {:induction false} SplitSegments(path: string, seg: string)
    requires '.' !in seg
    ensures forall s <- SplitFrom(path, seg) :: Segment(s)
  {
    if path != "" {
      if path[0] == '.' { SplitSegments(path[1..], ""); } else { SplitSegments(path[1..], seg + [path[0]]); }
    }
  }

  lemma {:induction false} SplitPlain(p: string, seg: string)
    requires '.' !in p
    ensures SplitFrom(p, seg) == if seg + p == "" then [] else [seg + p]
  {
    if p == "" {
      assert seg + p == seg;
    } else {
      SplitPlain(p[1..], seg + [p[0]]);
      assert seg + [p[0]] + p[1..] == seg + p;
    }
  }

  // A dot separates: splitting distributes over it, for any two paths.
  lemma {:induction false} SplitDot(p: string, q: string, seg: string)
    ensures SplitFrom(p + "." + q, seg) == SplitFrom(p, seg) + Split(q)
  {
    var w := p + "." + q;
    if p == "" {
      assert w == "." + q && w[1..] == q;
    } else {
      assert w[0] == p[0] && w[1..] == p[1..] + "." + q;
      if p[0] == '.' {
        SplitDot(p[1..], q, "");
        assert (if seg == "" then [] else [seg]) + (SplitFrom(p[1..], "") + Split(q))
            == (if seg == "" then [] else [seg]) + SplitFrom(p[1..], "") + Split(q);
      } else {
        SplitDot(p[1..], q, seg + [p[0]]);
      }
    }
  }

  lemma {:induction false} SplitInvertsJoin(segs: seq<string>)
    requires forall s <- segs :: Segment(s)
    ensures Split(Join(segs)) == segs
  {
    if segs != [] {
      assert Segment(segs[0]);
      SplitPlain(segs[0], "");
      assert "" + segs[0] == segs[0];
      if |segs| > 1 {
        SplitDot(segs[0], Join(segs[1..]), "");
        SplitInvertsJoin(segs[1..]);
      }
    }
  }

  lemma SplitChild(path: string, key: string)
    requires Segment(key)
    ensures Split(path + "." + key) == Split(path) + [key]
  {
    SplitDot(path, key, "");
    SplitPlain(key, "");
    assert "" + key == key;
  }

  // ---- walking and creating ----

  function Resolve(v: Json, segs: seq<string>): Option<Json> {
    if segs == [] then Some(v)
    else if !v.Obj? then None
    else
      match Find(v.fields, segs[0])
      case None => None
      case Some(c) => Resolve(c, segs[1..])
  }

  // Every node that exists on the way, except the last, is an object.
  predicate ObjectPath(v: Json, segs: seq<string>) {
    segs == [] ||
    (v.Obj? && match Find(v.fields, segs[0])
               case None => true
               case Some(c) => ObjectPath(c, segs[1..]))
  }

  function Child(v: Json, key: string): Json
    requires v.Obj?
  {
    match Find(v.fields, key)
    case None => Obj([])
    case Some(c) => c
  }

  // v with the node at segs, created if need be, replaced by leaf.
  function Assign(v: Json, segs: seq<string>, leaf: Json): Json
    requires ObjectPath(v, segs)
    decreases |segs|
  {
    if segs == [] then leaf
    else Obj(Put(v.fields, segs[0], Assign(Child(v, segs[0]), segs[1..], leaf)))
  }

  // The node at segs, or the empty object that is created there.
  function Node(v: Json, segs: seq<string>): Json
    requires ObjectPath(v, segs)
    decreases |segs|
  {
    if segs == [] then v else Node(Child(v, segs[0]), segs[1..])
  }

  function Create(v: Json, segs: seq<string>): Json
    requires ObjectPath(v, segs)
  {
    Assign(v, segs, Node(v, segs))
  }

  lemma {:induction false} FindPut(fs: seq<Field>, key: string, v: Json, other: string)
    ensures Find(Put(fs, key, v), other) == if other == key then Some(v) else Find(fs, other)
  {
    if fs != [] && fs[0].key != key {
      FindPut(fs[1..], key, v, other);
    }
  }

  lemma {:induction false} NodeIsResolved(v: Json, segs: seq<string>)
    requires ObjectPath(v, segs)
    ensures Node(v, segs) == match Resolve(v, segs) case Some(n) => n case None => Obj([])
  {
    if segs != [] {
      if Find(v.fields, segs[0]).None? {
        EmptyNode(segs[1..]);
      } else {
        NodeIsResolved(Child(v, segs[0]), segs[1..]);
      }
    }
  }

  lemma {:induction false} EmptyNode(segs: seq<string>)
    ensures ObjectPath(Obj([]), segs) && Node(Obj([]), segs) == Obj([])
    ensures Resolve(Obj([]), segs) == if segs == [] then Some(Obj([])) else None
  {
    if segs != [] { EmptyNode(segs[1..]); }
  }

  lemma {:induction false} ObjectPrefix(v: Json, p: seq<string>, q: seq<string>)
    requires ObjectPath(v, p) && q <= p
    ensures ObjectPath(v, q) && ObjectPath(Node(v, q), p[|q|..])
    decreases |p|
  {
    if q == [] {
      assert p[0..] == p;
    } else {
      assert q[0] == p[0] && q[1..] <= p[1..];
      if Find(v.fields, p[0]).None? { EmptyNode(p[1..]); EmptyNode(q[1..]); }
      ObjectPrefix(Child(v, p[0]), p[1..], q[1..]);
      assert p[|q|..] == p[1..][|q[1..]|..];
    }
  }

  // What any path q finds after the node at p has been assigned: below p the leaf, above p the node with the
  // rest of the path assigned, and elsewhere what it found before.
  lemma {:induction false} ResolveAssigned(v: Json, p: seq<string>, leaf: Json, q: seq<string>)
    requires ObjectPath(v, p)
    ensures p <= q ==> Resolve(Assign(v, p, leaf), q) == Resolve(leaf, q[|p|..])
    ensures q < p ==>
      && ObjectPath(v, q) && ObjectPath(Node(v, q), p[|q|..])
      && Resolve(Assign(v, p, leaf), q) == Some(Assign(Node(v, q), p[|q|..], leaf))
    ensures !(p <= q) && !(q < p) ==> Resolve(Assign(v, p, leaf), q) == Resolve(v, q)
    decreases |p|
  {
    if q < p { ObjectPrefix(v, p, q); }
    if p == [] {
      assert q[0..] == q;
    } else if q == [] {
      assert p[0..] == p;
    } else {
      var c := Child(v, p[0]);
      FindPut(v.fields, p[0], Assign(c, p[1..], leaf), q[0]);
      if p[0] == q[0] {
        if Find(v.fields, p[0]).None? { EmptyNode(p[1..]); EmptyNode(q[1..]); }
        ResolveAssigned(c, p[1..], leaf, q[1..]);
        PrefixTails(p, q);
      }
    }
  }

  lemma PrefixTails(p: seq<string>, q: seq<string>)
    requires p != [] && q != [] && p[0] == q[0]
    ensures (p <= q) == (p[1..] <= q[1..]) && (q < p) == (q[1..] < p[1..])
    ensures p <= q ==> q[|p|..] == q[1..][|p[1..]|..]
    ensures q < p ==> p[|q|..] == p[1..][|q[1..]|..]
  {
    if p[1..] <= q[1..] { assert p == [p[0]] + p[1..] && q == [q[0]] + q[1..]; }
    if q[1..] < p[1..] { assert p == [p[0]] + p[1..] && q == [q[0]] + q[1..]; }
  }

  lemma {:induction false} PutSame(fs: seq<Field>, key: string)
    requires Find(fs, key).Some?
    ensures Put(fs, key, Find(fs, key).value) == fs
  {
    if fs[0].key != key {
      PutSame(fs[1..], key);
      assert fs == [fs[0]] + fs[1..];
    }
  }

  lemma {:induction false} CreateExisting(v: Json, p: seq<string>)
    requires ObjectPath(v, p) && Resolve(v, p).Some?
    ensures Create(v, p) == v
    decreases |p|
  {
    if p != [] {
      PutSame(v.fields, p[0]);
      CreateExisting(Child(v, p[0]), p[1..]);
    }
  }

  lemma {:induction false} ResolveSplit(v: Json, p: seq<string>, q: seq<string>)
    requires p <= q
    ensures Resolve(v, q) == match Resolve(v, p) case Some(n) => Resolve(n, q[|p|..]) case None => None
    decreases |p|
  {
    if p == [] {
      assert q[0..] == q;
    } else if v.Obj? && Find(v.fields, p[0]).Some? {
      PrefixTails(p, q);
      ResolveSplit(Find(v.fields, p[0]).value, p[1..], q[1..]);
    }
  }

  // resolveOrCreatePath: the path then resolves, to what it resolved to before or to an empty object;
  // a path that resolved before still does, to the same value unless it leads to the created node;
  // and no other path is created.
  lemma CreateKeepsOtherPaths(v: Json, p: seq<string>, q: seq<string>)
    requires ObjectPath(v, p)
    ensures Resolve(Create(v, p), p) == Some(match Resolve(v, p) case Some(n) => n case None => Obj([]))
    ensures Resolve(v, q).Some? ==> Resolve(Create(v, p), q).Some?
    ensures Resolve(v, q).Some? && !(q < p) ==> Resolve(Create(v, p), q) == Resolve(v, q)
    ensures Resolve(Create(v, p), q).Some? ==> Resolve(v, q).Some? || q <= p
  {
    NodeIsResolved(v, p);
    ResolveAssigned(v, p, Node(v, p), p);
    assert p[|p|..] == [];
    ResolveAssigned(v, p, Node(v, p), q);
    if p <= q {
      ResolveSplit(v, p, q);
      if Resolve(v, p).None? { EmptyNode(q[|p|..]); assert q[|p|..] == [] ==> q == p; }
    }
  }

  // A path goes on exactly from an object.
  lemma {:induction false} NodeMustBeObject(v: Json, p: seq<string>, k: string)
    requires ObjectPath(v, p)
    ensures ObjectPath(v, p + [k]) <==> Node(v, p).Obj?
    decreases |p|
  {
    if p == [] {
      assert p + [k] == [k] && [k][1..] == [];
    } else {
      assert (p + [k])[1..] == p[1..] + [k];
      EmptyNode(p[1..]);
      EmptyNode(p[1..] + [k]);
      NodeMustBeObject(Child(v, p[0]), p[1..], k);
    }
  }

  // One more segment: the cursor stands on the object at p, and the missing key k is emplaced there.
  lemma {:induction false} CreateStep(v: Json, p: seq<string>, k: string)
    requires ObjectPath(v, p + [k])
    ensures ObjectPath(v, p) && Resolve(Create(v, p), p).Some? && Resolve(Create(v, p), p).value.Obj?
    ensures ObjectPath(Create(v, p), p + [k])
    ensures var w := Create(v, p);
      Create(v, p + [k]) ==
        if Find(Resolve(w, p).value.fields, k).None? then Assign(w, p + [k], Obj([])) else w
    decreases |p|
  {
    if p == [] {
      assert p + [k] == [k];
      assert [k][1..] == [];
      if Find(v.fields, k).Some? { PutSame(v.fields, k); }
      assert Node(v, [k]) == Child(v, k) by { assert Node(Child(v, k), [k][1..]) == Child(v, k); }
      assert Assign(v, [k], Child(v, k)) == Obj(Put(v.fields, k, Child(v, k))) by {
        assert Assign(Child(v, k), [k][1..], Child(v, k)) == Child(v, k);
      }
    } else {
      var c := Child(v, p[0]);
      assert (p + [k])[1..] == p[1..] + [k];
      EmptyNode(p[1..] + [k]);
      CreateStep(c, p[1..], k);
      var w := Create(v, p);
      FindPut(v.fields, p[0], Create(c, p[1..]), p[0]);
      assert Child(w, p[0]) == Create(c, p[1..]);
      PutTwice(v.fields, p[0], Create(c, p[1..]), Create(c, p[1..] + [k]));
    }
  }

  lemma {:induction false} PutTwice(fs: seq<Field>, key: string, a: Json, b: Json)
    ensures Put(Put(fs, key, a), key, b) == Put(fs, key, b)
  {
    if fs != [] && fs[0].key != key { PutTwice(fs[1..], key, a, b); }
  }

  // ---- values handed to callers ----

  datatype ConfigValue =
    | BoolValue(b: bool)
    | LongValue(n: int)
    | DoubleValue(text: string)
    | StringValue(s: string)
    | ObjectValue(values: map<string, ConfigValue>)

  // A cast of a 64-bit integer to long: what exceeds the signed range wraps around.
  function ToLong(n: int): int {
    if n > 0x7FFF_FFFF_FFFF_FFFF then n - 0x1_0000_0000_0000_0000 else n
  }

  function ConfigOf(v: Json): ConfigValue {
    match v
    case Null => StringValue("null")
    case Bool(b) => BoolValue(b)
    case Int(n) => LongValue(ToLong(n))
    case Real(t) => DoubleValue(t)
    case Str(s) => StringValue(s)
    case Arr(_) => StringValue(Compact(v))
    case Obj(fs) => ObjectValue(ConfigMap(fs))
  }

  // What a value handed to a caller stands for, told from the value: a long is the integer modulo 2^64 in the signed
  // range, a string is itself, the word null or the text of an array, and a map holds the fields without their order.
  ghost predicate Carries(c: ConfigValue, v: Json)
    decreases v
  {
    match c
    case BoolValue(b) => v == Bool(b)
    case LongValue(n) =>
      v.Int? && -0x8000_0000_0000_0000 <= n <= 0x7FFF_FFFF_FFFF_FFFF && (v.n - n) % 0x1_0000_0000_0000_0000 == 0
    case DoubleValue(t) => v == Real(t)
    case StringValue(s) => v == Str(s) || (v == Null && s == "null") || (v.Arr? && Parse(s, Depth(v)) == Some(v))
    case ObjectValue(m) =>
      && v.Obj? && (forall k :: k in m <==> HasKey(v.fields, k))
      && forall f <- v.fields :: f.key in m && Carries(m[f.key], f.val)
  }

  // The values that come out whole: no array, no null, no integer above the signed range.
  predicate Plain(v: Json) {
    match v
    case Null => false
    case Int(n) => -0x8000_0000_0000_0000 <= n <= 0x7FFF_FFFF_FFFF_FFFF
    case Arr(_) => false
    case Obj(fs) => forall f <- fs :: Plain(f.val)
    case _ => true
  }

  // Equal up to the order of fields.
  ghost predicate Same(v: Json, w: Json)
    decreases v
  {
    if v.Obj? && w.Obj? then
      && (forall k :: HasKey(v.fields, k) <==> HasKey(w.fields, k))
      && forall f <- v.fields, g <- w.fields :: f.key == g.key ==> Same(f.val, g.val)
    else v == w
  }

  // std::map::emplace keeps the first value of a key.
  function ConfigMap(fs: seq<Field>): map<string, ConfigValue> {
    if fs == [] then map[]
    else
      var m := ConfigMap(fs[..|fs| - 1]);
      var last := fs[|fs| - 1];
      if last.key in m then m else m[last.key := ConfigOf(last.val)]
  }

  lemma {:induction false} FindAppend(fs: seq<Field>, f: Field, key: string)
    ensures Find(fs + [f], key)
         == if Find(fs, key).Some? then Find(fs, key) else if f.key == key then Some(f.val) else None
  {
    if fs == [] {
      assert fs + [f] == [f];
    } else if fs[0].key != key {
      assert (fs + [f])[1..] == fs[1..] + [f];
      FindAppend(fs[1..], f, key);
    }
  }

  // getObject agrees with a lookup of each key.
  lemma {:induction false} ConfigMapFinds(fs: seq<Field>, key: string)
    ensures key in ConfigMap(fs) <==> Find(fs, key).Some?
    ensures key in ConfigMap(fs) ==> ConfigMap(fs)[key] == ConfigOf(Find(fs, key).value)
  {
    if fs != [] {
      var pre := fs[..|fs| - 1];
      assert fs == pre + [fs[|fs| - 1]];
      ConfigMapFinds(pre, key);
      FindAppend(pre, fs[|fs| - 1], key);
    }
  }

  lemma {:induction false} FindOnly(fs: seq<Field>, f: Field)
    requires DistinctKeys(fs) && f in fs
    ensures Find(fs, f.key) == Some(f.val)
  {
    if fs[0] != f {
      var i :| 0 <= i < |fs| && fs[i] == f;
      assert fs[1..][i - 1] == f;
      FindOnly(fs[1..], f);
    }
  }

  // Every valid value is carried to the caller.
  lemma {:induction false} ValueCarried(v: Json)
    requires Valid(v)
    ensures Carries(ConfigOf(v), v)
    decreases v
  {
    match v
    case Arr(_) => PrettyPrintRoundTrip(v, Depth(v));
    case Int(n) =>
      assert (n - ToLong(n)) % 0x1_0000_0000_0000_0000 == 0;
    case Obj(fs) =>
      var m := ConfigMap(fs);
      forall k ensures k in m <==> HasKey(fs, k) { ConfigMapFinds(fs, k); }
      forall f <- fs ensures f.key in m && Carries(m[f.key], f.val) {
        ConfigMapFinds(fs, f.key);
        FindOnly(fs, f);
        ValueCarried(f.val);
      }
    case _ =>
  }

  // What is carried comes from one plain value only.
  lemma {:induction false} CarriedOnce(c: ConfigValue, v: Json, w: Json)
    requires Carries(c, v) && Carries(c, w) && Plain(v) && Plain(w)
    ensures Same(v, w)
    decreases v
  {
    match c
    case LongValue(n) =>
      SameLong(v.n, n);
      SameLong(w.n, n);
    case ObjectValue(m) =>
      forall f <- v.fields, g <- w.fields | f.key == g.key ensures Same(f.val, g.val) {
        CarriedOnce(m[f.key], f.val, g.val);
      }
    case _ =>
  }

  lemma SameLong(x: int, n: int)
    requires -0x8000_0000_0000_0000 <= x <= 0x7FFF_FFFF_FFFF_FFFF
    requires -0x8000_0000_0000_0000 <= n <= 0x7FFF_FFFF_FFFF_FFFF && (x - n) % 0x1_0000_0000_0000_0000 == 0
    ensures x == n
  {
  }

  function Keys(fs: seq<Field>): seq<string> {
    seq(|fs|, i requires 0 <= i < |fs| => fs[i].key)
  }

  // The keys of getObject(path) are those of getKeys(path), and under a key without dots getObject agrees with
  // resolving the longer path.
  lemma ObjectAgreesWithPaths(root: Json, path: string, key: string)
    requires Resolve(root, Split(path)).Some? && Resolve(root, Split(path)).value.Obj?
    ensures var fs := Resolve(root, Split(path)).value.fields;
      && (key in ConfigMap(fs) <==> key in Keys(fs))
      && (Segment(key) ==> match Resolve(root, Split(path + "." + key))
                           case Some(n) => key in ConfigMap(fs) && ConfigMap(fs)[key] == ConfigOf(n)
                           case None => key !in ConfigMap(fs))
  {
    var p := Split(path);
    var fs := Resolve(root, p).value.fields;
    ConfigMapFinds(fs, key);
    assert key in Keys(fs) <==> HasKey(fs, key) by {
      if key in Keys(fs) {
        var i :| 0 <= i < |Keys(fs)| && Keys(fs)[i] == key;
        assert fs[i] in fs;
      }
      if HasKey(fs, key) {
        var f :| f in fs && f.key == key;
        var i :| 0 <= i < |fs| && fs[i] == f;
        assert Keys(fs)[i] == key;
      }
    }
    if Segment(key) {
      SplitChild(path, key);
      ResolveSplit(root, p, p + [key]);
      assert (p + [key])[|p|..] == [key];
      assert [key][1..] == [];
    }
  }
}

module Configuration {
  import opened JsonText
  import opened ConfigPath
  import opened Sequences
  import opened Wrappers

  // Nesting that boost::json::parse accepts when parse_options leaves max_depth at its default.
  const MAX_DEPTH: nat := 32

  datatype Lookup = Found(values: map<string, ConfigValue>) | KeyNotFound | NotAnObject

  class Stream {
    var text: string

    constructor ()
      ensures text == ""
    {
      text := "";
    }

    method Write(s: string)
      modifies this
      ensures text == old(text) + s
    {
      text := text + s;
    }
  }

  method SplitPath(path: string) returns (segments: seq<string>)
    ensures segments == Split(path)
  {
    segments := [];
    var seg := "";
    for i := 0 to |path|
      invariant segments + SplitFrom(path[i..], seg) == Split(path)
    {
      assert path[i..][1..] == path[i + 1..];
      if path[i] == '.' {
        if seg != "" { segments := segments + [seg]; }
        seg := "";
      } else {
        seg := seg + [path[i]];
      }
    }
    assert path[|path|..] == "";
    if seg != "" { segments := segments + [seg]; }
  }

  method ToConfigValue(v: Json) returns (c: ConfigValue)
    ensures c == ConfigOf(v) && (Valid(v) ==> Carries(c, v))
    decreases v, 0
  {
    hide Carries;
    if Valid(v) { ValueCarried(v); }
    match v
    case Null => c := StringValue("null");
    case Bool(b) => c := BoolValue(b);
    case Int(n) => c := LongValue(ToLong(n));
    case Real(t) => c := DoubleValue(t);
    case Str(s) => c := StringValue(s);
    case Arr(_) => c := StringValue(Compact(v));
    case Obj(fs) =>
      var m := ToConfigMap(fs);
      c := ObjectValue(m);
  }

  method ToConfigMap(fs: seq<Field>) returns (m: map<string, ConfigValue>)
    ensures m == ConfigMap(fs)
    decreases fs, 1
  {
    m := map[];
    for i := 0 to |fs|
      invariant m == ConfigMap(fs[..i])
    {
      assert fs[..i + 1][..i] == fs[..i];
      var c := ToConfigValue(fs[i].val);
      if fs[i].key !in m { m := m[fs[i].key := c]; }
    }
    assert fs[..|fs|] == fs;
  }

  method PrettyPrintValue(v: Json, out: Stream, indent: nat)
    modifies out
    ensures out.text == old(out.text) + Pretty(v, indent)
    decreases v, 0
  {
    match v
    case Obj(fs) => PrettyPrintObject(fs, out, indent);
    case Arr(es) => PrettyPrintArray(es, out, indent);
    case _ => out.Write(ScalarText(v));
  }

  method PrettyPrintObject(fs: seq<Field>, out: Stream, indent: nat)
    modifies out
    ensures out.text == old(out.text) + Pretty(Obj(fs), indent)
    decreases fs, 2
  {
    if fs == [] {
      out.Write("{}");
    } else {
      out.Write("{\n");
      PrettyPrintFields(fs, out, indent + 1);
      out.Write(Pad(indent) + "}");
      Regroup4(old(out.text), "{\n", PrettyFields(fs, indent + 1), Pad(indent) + "}");
      assert Pretty(Obj(fs), indent) == "{\n" + PrettyFields(fs, indent + 1) + (Pad(indent) + "}");
    }
  }

  // The loop over the members of an object, which counts them to know where the last comma goes.
  method PrettyPrintFields(fs: seq<Field>, out: Stream, indent: nat)
    modifies out
    ensures out.text == old(out.text) + PrettyFields(fs, indent)
    decreases fs, 1
  {
    hide PrettyFields, PrettyField;
    ghost var start := out.text;
    ghost var written := "";
    assert fs[0..] == fs && start + "" == start && "" + PrettyFields(fs, indent) == PrettyFields(fs, indent);
    var i := 0;
    while i < |fs|
      invariant i <= |fs|
      invariant out.text == start + written
      invariant written + PrettyFields(fs[i..], indent) == PrettyFields(fs, indent)
    {
      PrettyPrintField(fs[i], out, indent, i + 1 < |fs|);
      ghost var piece := PrettyField(fs[i], indent, i + 1 < |fs|);
      FieldsStep(fs, i, indent);
      Regroup(start, written, piece);
      Regroup(written, piece, PrettyFields(fs[i + 1..], indent));
      written := written + piece;
      i := i + 1;
    }
    assert fs[|fs|..] == [];
    FieldsEnd(indent);
    assert written + "" == written;
  }

  lemma FieldsEnd(indent: nat)
    ensures PrettyFields([], indent) == ""
  {
  }

  lemma FieldsStep(fs: seq<Field>, i: nat, indent: nat)
    requires i < |fs|
    ensures PrettyFields(fs[i..], indent)
         == PrettyField(fs[i], indent, i + 1 < |fs|) + PrettyFields(fs[i + 1..], indent)
  {
    assert fs[i..][1..] == fs[i + 1..];
  }

  method PrettyPrintField(f: Field, out: Stream, indent: nat, more: bool)
    modifies out
    ensures out.text == old(out.text) + PrettyField(f, indent, more)
    decreases f, 1
  {
    out.Write(Pad(indent) + Quote(f.key) + ": ");
    PrettyPrintValue(f.val, out, indent);
    if more { out.Write(","); }
    out.Write("\n");
    Regroup4(old(out.text), Pad(indent) + Quote(f.key) + ": ", Pretty(f.val, indent), if more then ",\n" else "\n");
  }

  method PrettyPrintArray(es: seq<Json>, out: Stream, indent: nat)
    modifies out
    ensures out.text == old(out.text) + Pretty(Arr(es), indent)
    decreases es, 2
  {
    if es == [] {
      out.Write("[]");
    } else {
      out.Write("[\n");
      PrettyPrintElems(es, out, indent + 1);
      out.Write(Pad(indent) + "]");
      Regroup4(old(out.text), "[\n", PrettyElems(es, indent + 1), Pad(indent) + "]");
      assert Pretty(Arr(es), indent) == "[\n" + PrettyElems(es, indent + 1) + (Pad(indent) + "]");
    }
  }

  method PrettyPrintElems(es: seq<Json>, out: Stream, indent: nat)
    modifies out
    ensures out.text == old(out.text) + PrettyElems(es, indent)
    decreases es, 1
  {
    hide PrettyElems, PrettyElem;
    ghost var start := out.text;
    ghost var written := "";
    assert es[0..] == es && start + "" == start && "" + PrettyElems(es, indent) == PrettyElems(es, indent);
    var i := 0;
    while i < |es|
      invariant i <= |es|
      invariant out.text == start + written
      invariant written + PrettyElems(es[i..], indent) == PrettyElems(es, indent)
    {
      PrettyPrintElem(es[i], out, indent, i + 1 < |es|);
      ghost var piece := PrettyElem(es[i], indent, i + 1 < |es|);
      ElemsStep(es, i, indent);
      Regroup(start, written, piece);
      Regroup(written, piece, PrettyElems(es[i + 1..], indent));
      written := written + piece;
      i := i + 1;
    }
    assert es[|es|..] == [];
    ElemsEnd(indent);
    assert written + "" == written;
  }

  lemma ElemsEnd(indent: nat)
    ensures PrettyElems([], indent) == ""
  {
  }

  function PrettyElem(e: Json, indent: nat, more: bool): string {
    Pad(indent) + Pretty(e, indent) + (if more then ",\n" else "\n")
  }

  lemma ElemsStep(es: seq<Json>, i: nat, indent: nat)
    requires i < |es|
    ensures PrettyElems(es[i..], indent) == PrettyElem(es[i], indent, i + 1 < |es|) + PrettyElems(es[i + 1..], indent)
  {
    assert es[i..][1..] == es[i + 1..];
  }

  method PrettyPrintElem(e: Json, out: Stream, indent: nat, more: bool)
    modifies out
    ensures out.text == old(out.text) + PrettyElem(e, indent, more)
    decreases e, 1
  {
    out.Write(Pad(indent));
    PrettyPrintValue(e, out, indent);
    if more { out.Write(","); }
    out.Write("\n");
    Regroup4(old(out.text), Pad(indent), Pretty(e, indent), if more then ",\n" else "\n");
  }

  class Configuration {
    var root: Json

    constructor ()
      ensures root == Null
    {
      root := Null;
    }

    method ResolvePath(path: string) returns (node: Option<Json>)
      ensures node == Resolve(root, Split(path))
    {
      var segs := SplitPath(path);
      var cur := root;
      for i := 0 to |segs|
        invariant Resolve(cur, segs[i..]) == Resolve(root, segs)
      {
        assert segs[i..][1..] == segs[i + 1..];
        if !cur.Obj? { return None; }
        match Find(cur.fields, segs[i])
        case None => return None;
        case Some(c) => cur := c;
      }
      return Some(cur);
    }

    // Returns the path of the node that the moving pointer ends on. The code takes every node on the way for an object
    // without a check; where one is not, what follows is undefined, and the result is None.
    method ResolveOrCreatePath(path: string) returns (cursor: Option<seq<string>>)
      modifies this
      ensures var start := if old(root).Obj? then old(root) else Obj([]);
        && (cursor.Some? <==> ObjectPath(start, Split(path)))
        && (cursor.Some? ==> cursor.value == Split(path) && root == Create(start, Split(path))
                             && Resolve(root, Split(path)).Some?)
    {
      if !root.Obj? { root := Obj([]); }
      ghost var start := root;
      var segs := SplitPath(path);
      var at: seq<string> := [];
      NodeIsResolved(start, []);
      for i := 0 to |segs|
        invariant at == segs[..i]
        invariant ObjectPath(start, segs[..i]) && root == Create(start, segs[..i])
        invariant Resolve(root, at) == Some(Node(start, segs[..i]))
      {
        assert segs[..i + 1] == at + [segs[i]];
        NodeMustBeObject(start, at, segs[i]);
        var node := Resolve(root, at).value;
        if !node.Obj? {
          if ObjectPath(start, segs) { ObjectPrefix(start, segs, segs[..i + 1]); }
          return None;
        }
        CreateStep(start, at, segs[i]);
        if Find(node.fields, segs[i]).None? {
          root := Assign(root, at + [segs[i]], Obj([]));
        }
        at := at + [segs[i]];
        CreateKeepsOtherPaths(start, at, at);
        NodeIsResolved(start, at);
      }
      assert segs[..|segs|] == segs;
      return Some(at);
    }

    // False where the path leads through a node that is not an object.
    method SetValue(path: string, value: Json) returns (defined: bool)
      modifies this
      ensures var start := if old(root).Obj? then old(root) else Obj([]);
        && (defined <==> ObjectPath(start, Split(path)))
        && (defined ==> root == Assign(start, Split(path), value) && Resolve(root, Split(path)) == Some(value))
    {
      ghost var start := if root.Obj? then root else Obj([]);
      var cursor := ResolveOrCreatePath(path);
      if cursor.None? { return false; }
      var at := cursor.value;
      ObjectPathCreated(start, at);
      AssignTwice(start, at, Node(start, at), value);
      root := Assign(root, at, value);
      ResolveAssigned(start, at, value, at);
      assert at[|at|..] == [];
      return true;
    }

    method GetKeys(path: string) returns (keys: seq<string>)
      ensures keys == match Resolve(root, Split(path)) { case Some(Obj(fs)) => Keys(fs) case _ => [] }
    {
      keys := [];
      var node := ResolvePath(path);
      if node.None? || !node.value.Obj? { return; }
      var fs := node.value.fields;
      for i := 0 to |fs|
        invariant keys == Keys(fs)[..i]
      {
        keys := keys + [fs[i].key];
      }
    }

    method GetObject(path: string) returns (r: Lookup)
      ensures r == match Resolve(root, Split(path)) {
                     case None => KeyNotFound
                     case Some(Obj(fs)) => Found(ConfigMap(fs))
                     case _ => NotAnObject
                   }
      ensures r.Found? && Valid(Resolve(root, Split(path)).value) ==>
        Carries(ObjectValue(r.values), Resolve(root, Split(path)).value)
    {
      hide Carries;
      var node := ResolvePath(path);
      if node.None? { return KeyNotFound; }
      if !node.value.Obj? { return NotAnObject; }
      var m := ToConfigMap(node.value.fields);
      if Valid(node.value) { ValueCarried(node.value); }
      return Found(m);
    }

    method Dump() returns (text: string)
      ensures text == Compact(root)
    {
      text := Compact(root);
    }

    // What saveTo writes.
    method Save() returns (text: string)
      ensures text == PrettyPrint(root)
    {
      var out := new Stream();
      PrettyPrintValue(root, out, 0);
      out.Write("\n");
      assert "" + Pretty(root, 0) == Pretty(root, 0);
      text := out.text;
    }

    // A parse error is logged and leaves the null value that the parser returns.
    method Load(text: string)
      modifies this
      ensures root == match Parse(text, MAX_DEPTH) { case Some(v) => v case None => Null }
    {
      match Parse(text, MAX_DEPTH)
      case Some(v) => root := v;
      case None => root := Null;
    }

    // Saving and loading restores the tree exactly when it is nested no deeper than the parser allows.
    method SaveThenLoad()
      requires Valid(root)
      modifies this
      ensures root == if Depth(old(root)) <= 32 then old(root) else Null
    {
      var text := Save();
      PrettyPrintRoundTrip(root, MAX_DEPTH);
      Load(text);
    }
  }

  lemma {:induction false} ObjectPathCreated(v: Json, p: seq<string>)
    requires ObjectPath(v, p)
    ensures ObjectPath(Create(v, p), p)
    decreases |p|
  {
    if p != [] {
      FindPut(v.fields, p[0], Create(Child(v, p[0]), p[1..]), p[0]);
      ObjectPathCreated(Child(v, p[0]), p[1..]);
    }
  }

  lemma {:induction false} AssignTwice(v: Json, p: seq<string>, a: Json, b: Json)
    requires ObjectPath(v, p) && ObjectPath(Assign(v, p, a), p)
    ensures Assign(Assign(v, p, a), p, b) == Assign(v, p, b)
    decreases |p|
  {
    if p != [] {
      var c := Child(v, p[0]);
      FindPut(v.fields, p[0], Assign(c, p[1..], a), p[0]);
      AssignTwice(c, p[1..], a, b);
      PutTwice(v.fields, p[0], Assign(c, p[1..], a), Assign(c, p[1..], b));
    }
  }
}
