// The server side of SRP-6a, with M1 and M2 taken from S. SHA-1 is a function parameter with 20 bytes of output; the
// group is any modulus N > 1 of at least 20 bytes with any g below it.
module SrpUtils {
  import opened Bytes
  import opened Digest
  import opened Wrappers

  const SHA_DIGEST_LENGTH := 20

  type Sha1Digest = d: Bytes | |d| == SHA_DIGEST_LENGTH witness seq(SHA_DIGEST_LENGTH, i => 0 as char)

  // ---- BIGNUMs as bytes ----

  // BN_bn2bin: most significant byte first, no leading zeros.
  function Bin(n: nat): Bytes {
    if n == 0 then "" else Bin(n / 256) + [(n % 256) as char]
  }

  // BN_bin2bn
  function Number(s: Bytes): nat {
    if s == "" then 0 else 256 * Number(s[..|s| - 1]) + s[|s| - 1] as int
  }

  lemma {:induction false} NumberOfBin(n: nat)
    ensures Number(Bin(n)) == n
  {
    if n > 0 {
      NumberOfBin(n / 256);
      assert Bin(n)[..|Bin(n)| - 1] == Bin(n / 256);
    }
  }

  lemma {:induction false} BinMonotone(m: nat, n: nat)
    requires m <= n
    ensures |Bin(m)| <= |Bin(n)|
  {
    if m > 0 { BinMonotone(m / 256, n / 256); }
  }

  lemma {:induction false} BinOfNumber(s: Bytes)
    ensures |Bin(Number(s))| <= |s|
  {
    if s != "" { BinOfNumber(s[..|s| - 1]); }
  }

  // Zeros in front of a number that is shorter than the modulus.
  function Pad(n: nat, width: nat): Bytes {
    if |Bin(n)| < width then seq(width - |Bin(n)|, i => 0 as char) + Bin(n) else Bin(n)
  }

  // The first byte is the most significant one.
  lemma {:induction false} NumberIsBigEndian(c: Byte, s: Bytes)
    ensures Number([c] + s) == c as int * Pow(256, |s|) + Number(s)
  {
    if s == "" {
      assert [c] + s == [c] && [c][..0] == "";
    } else {
      var t, d := s[..|s| - 1], s[|s| - 1];
      NumberIsBigEndian(c, t);
      assert ([c] + s)[..|s|] == [c] + t;
      assert 256 * (c as int * Pow(256, |t|)) == c as int * (256 * Pow(256, |t|));
    }
  }

  lemma BinHasNoLeadingZero(n: nat)
    ensures Bin(n) != "" ==> Bin(n)[0] != '\0'
  {
    if n >= 256 {
      BinHasNoLeadingZero(n / 256);
    } else {
      assert n / 256 == 0;
    }
  }

  lemma PadKeepsNumber(n: nat, width: nat)
    ensures Number(Pad(n, width)) == n
    ensures |Bin(n)| <= width ==> |Pad(n, width)| == width
  {
    NumberOfBin(n);
    if |Bin(n)| < width { ZerosInFront(width - |Bin(n)|, Bin(n)); }
  }

  lemma {:induction false} ZerosInFront(k: nat, s: Bytes)
    ensures Number(seq(k, i => 0 as char) + s) == Number(s)
  {
    if k == 0 {
      assert seq(k, i => 0 as char) + s == s;
    } else {
      ZerosInFront(k - 1, s);
      var rest := seq(k - 1, i => 0 as char) + s;
      NumberIsBigEndian(0 as char, rest);
      assert seq(k, i => 0 as char) + s == [0 as char] + rest;
      assert 0 * Pow(256, |rest|) == 0;
    }
  }

  // ---- the exponent arithmetic ----

  function Pow(x: int, e: nat): int {
    if e == 0 then 1 else x * Pow(x, e - 1)
  }

  ghost predicate Congruent(x: int, y: int, N: nat) {
    exists q: int :: x == y + q * N
  }

  lemma ModCongruent(x: int, N: nat)
    requires N > 0
    ensures Congruent(x % N, x, N)
  {
    assert x % N == x + (-(x / N)) * N;
  }

  lemma CongruentMod(x: int, y: int, N: nat)
    requires N > 0 && Congruent(x, y, N)
    ensures x % N == y % N
  {
    var q :| x == y + q * N;
    ModPlusMultiple(y, q, N);
  }

  lemma ModPlusMultiple(y: int, q: int, N: nat)
    requires N > 0
    ensures (y + q * N) % N == y % N
  {
    var r, d := y % N, y / N;
    assert y + q * N == (d + q) * N + r by { assert y == d * N + r; }
    RemainderUnique((y + q * N) / N, (y + q * N) % N, d + q, r, N);
  }

  lemma RemainderUnique(d: int, r: int, e: int, t: int, N: nat)
    requires 0 <= r < N && 0 <= t < N && d * N + r == e * N + t
    ensures r == t
  {
    assert (d - e) * N == t - r;
    if d > e { AtLeastOnce(d - e, N); }
    if d < e { AtLeastOnce(e - d, N); }
  }

  lemma AtLeastOnce(k: int, N: nat)
    requires k >= 1
    ensures k * N >= N
  {
    assert k * N == N + (k - 1) * N;
  }

  lemma CongruentTrans(x: int, y: int, z: int, N: nat)
    requires Congruent(x, y, N) && Congruent(y, z, N)
    ensures Congruent(x, z, N)
  {
    var p :| x == y + p * N;
    var q :| y == z + q * N;
    assert x == z + (p + q) * N;
  }

  lemma Unchanged(x: int, N: nat)
    ensures Congruent(x, x, N)
  {
    assert x == x + 0 * N;
  }

  lemma CongruentAdd(x: int, y: int, a: int, b: int, N: nat)
    requires Congruent(x, y, N) && Congruent(a, b, N)
    ensures Congruent(x + a, y + b, N)
  {
    var p :| x == y + p * N;
    var q :| a == b + q * N;
    assert x + a == y + b + (p + q) * N;
  }

  lemma Multiplied(y: int, P: int, b: int, Q: int)
    ensures (y + P) * (b + Q) == y * b + y * Q + b * P + P * Q
  {
    assert (y + P) * (b + Q) == y * (b + Q) + P * (b + Q);
  }

  lemma Reordered(x: int, q: int, N: int)
    ensures x * (q * N) == x * q * N
  {
  }

  lemma Collected(a: int, b: int, c: int, N: int)
    ensures a * N + b * N + c * N == (a + b + c) * N
  {
    assert a * N + b * N == (a + b) * N;
  }

  lemma CongruentMul(x: int, y: int, a: int, b: int, N: nat)
    requires Congruent(x, y, N) && Congruent(a, b, N)
    ensures Congruent(x * a, y * b, N)
  {
    var p :| x == y + p * N;
    var q :| a == b + q * N;
    Multiplied(y, p * N, b, q * N);
    Reordered(y, q, N);
    Reordered(b, p, N);
    Reordered(p * N, q, N);
    Collected(y * q, b * p, p * N * q, N);
    assert x * a == y * b + (y * q + b * p + p * N * q) * N;
  }

  lemma {:induction false} CongruentPow(x: int, y: int, e: nat, N: nat)
    requires Congruent(x, y, N)
    ensures Congruent(Pow(x, e), Pow(y, e), N)
  {
    if e == 0 {
      Unchanged(1, N);
    } else {
      CongruentPow(x, y, e - 1, N);
      CongruentMul(x, y, Pow(x, e - 1), Pow(y, e - 1), N);
    }
  }

  lemma {:induction false} PowAdd(x: int, d: nat, e: nat)
    ensures Pow(x, 1) == x && Pow(x, d + e) == Pow(x, d) * Pow(x, e)
  {
    assert Pow(x, 0) == 1;
    if d > 0 {
      PowAdd(x, d - 1, e);
      assert x * (Pow(x, d - 1) * Pow(x, e)) == x * Pow(x, d - 1) * Pow(x, e);
    }
  }

  lemma {:induction false} PowPow(x: int, d: nat, e: nat)
    ensures d * e >= 0 && Pow(Pow(x, d), e) == Pow(x, d * e)
  {
    if e > 0 {
      PowPow(x, d, e - 1);
      assert d * e == d + d * (e - 1);
      PowAdd(x, d, d * (e - 1));
    }
  }

  function PowMod(x: int, e: nat, N: nat): (r: nat)
    requires N > 0
    ensures r < N
  {
    Pow(x, e) % N
  }

  // ---- section 2.5.3 of RFC 5054: verifier and server key; section 2.6: client key ----

  function CalcX(sha1: Bytes -> Sha1Digest, salt: nat, user: Bytes, password: Bytes): nat {
    Number(sha1(Bin(salt) + sha1(user + ":" + password)))
  }

  function CalcK(sha1: Bytes -> Sha1Digest, N: nat, g: nat): nat {
    Number(sha1(Bin(N) + Pad(g, |Bin(N)|)))
  }

  function UOf(sha1: Bytes -> Sha1Digest, A: nat, B: nat, N: nat): nat {
    Number(sha1(Pad(A, |Bin(N)|) + Pad(B, |Bin(N)|)))
  }

  // SRP_Calc_u gives no result when A or B is not below N.
  function CalcU(sha1: Bytes -> Sha1Digest, A: nat, B: nat, N: nat): Option<nat> {
    if A < N && B < N then Some(UOf(sha1, A, B, N)) else None
  }

  function PublicB(k: nat, v: nat, g: nat, b: nat, N: nat): (B: nat)
    requires N > 0
    ensures B < N
  {
    (v * k % N + PowMod(g, b, N)) % N
  }

  function ServerKey(A: nat, v: nat, u: nat, b: nat, N: nat): (S: nat)
    requires N > 0
    ensures S < N
  {
    PowMod(A * PowMod(v, u, N) % N, b, N)
  }

  // B = k*v + g^b and S = (A * v^u)^b, reduced once.
  lemma PublicBFormula(k: nat, v: nat, g: nat, b: nat, N: nat)
    requires N > 0
    ensures PublicB(k, v, g, b, N) == (k * v + Pow(g, b)) % N
  {
    hide Pow, Congruent;
    ModCongruent(v * k, N);
    ModCongruent(Pow(g, b), N);
    CongruentAdd(v * k % N, v * k, Pow(g, b) % N, Pow(g, b), N);
    CongruentMod(v * k % N + Pow(g, b) % N, v * k + Pow(g, b), N);
    assert v * k == k * v;
  }

  lemma ServerKeyFormula(A: nat, v: nat, u: nat, b: nat, N: nat)
    requires N > 0
    ensures ServerKey(A, v, u, b, N) == Pow(A * Pow(v, u), b) % N
  {
    hide Pow, Congruent;
    var r := PowMod(v, u, N);
    ModCongruent(Pow(v, u), N);
    Unchanged(A, N);
    CongruentMul(A, A, r, Pow(v, u), N);
    ModCongruent(A * r, N);
    CongruentTrans(A * r % N, A * r, A * Pow(v, u), N);
    CongruentPow(A * r % N, A * Pow(v, u), b, N);
    CongruentMod(Pow(A * r % N, b), Pow(A * Pow(v, u), b), N);
  }

  function ClientKey(B: nat, k: nat, g: nat, x: nat, a: nat, u: nat, N: nat): (S: nat)
    requires N > 0
    ensures S < N
  {
    PowMod(B - k * Pow(g, x), ClientExponent(a, u, x), N)
  }

  function ClientExponent(a: nat, u: nat, x: nat): (e: nat)
    ensures e == a + u * x
  {
    assert u * x >= 0;
    a + u * x
  }

  // What the client is left with after removing k * g^x from B is g^b.
  lemma ClientBase(k: nat, g: nat, x: nat, b: nat, N: nat)
    requires N > 0
    ensures Congruent(PublicB(k, PowMod(g, x, N), g, b, N) - k * Pow(g, x), Pow(g, b), N)
  {
    hide Pow, Congruent;
    var X, Y := Pow(g, x), Pow(g, b);
    var v, gb, B := X % N, Y % N, PublicB(k, X % N, g, b, N);
    ModCongruent(X, N);
    Unchanged(k, N);
    CongruentMul(v, X, k, k, N);
    ModCongruent(v * k, N);
    CongruentTrans(v * k % N, v * k, X * k, N);
    ModCongruent(Y, N);
    CongruentAdd(v * k % N, X * k, gb, Y, N);
    ModCongruent(v * k % N + gb, N);
    CongruentTrans(B, v * k % N + gb, X * k + Y, N);
    Unchanged(-(X * k), N);
    CongruentAdd(B, X * k + Y, -(X * k), -(X * k), N);
  }

  // What the server raises to the power b is g^(a + u*x).
  lemma ServerBase(g: nat, x: nat, a: nat, u: nat, N: nat)
    requires N > 0
    ensures Congruent(PowMod(g, a, N) * PowMod(PowMod(g, x, N), u, N) % N, Pow(g, ClientExponent(a, u, x)), N)
  {
    hide Pow;
    var A, v := PowMod(g, a, N), PowMod(g, x, N);
    ModCongruent(Pow(g, a), N);
    ModCongruent(Pow(g, x), N);
    CongruentPow(v, Pow(g, x), u, N);
    ModCongruent(Pow(v, u), N);
    PowPow(g, x, u);
    CongruentTrans(PowMod(v, u, N), Pow(v, u), Pow(g, x * u), N);
    CongruentMul(A, Pow(g, a), PowMod(v, u, N), Pow(g, x * u), N);
    PowAdd(g, a, x * u);
    assert a + x * u == ClientExponent(a, u, x);
    ModCongruent(A * PowMod(v, u, N), N);
    CongruentTrans(A * PowMod(v, u, N) % N, A * PowMod(v, u, N), Pow(g, ClientExponent(a, u, x)), N);
  }

  lemma ReducedKeysAgree(k: nat, g: nat, x: nat, a: nat, b: nat, u: nat, N: nat)
    requires N > 0
    ensures var v := PowMod(g, x, N);
      ServerKey(PowMod(g, a, N), v, u, b, N) == ClientKey(PublicB(k, v, g, b, N), k, g, x, a, u, N)
  {
    hide Pow, PublicB;
    var v, e := PowMod(g, x, N), ClientExponent(a, u, x);
    var s := PowMod(g, a, N) * PowMod(v, u, N) % N;
    var c := PublicB(k, v, g, b, N) - k * Pow(g, x);
    ServerBase(g, x, a, u, N);
    CongruentPow(s, Pow(g, e), b, N);
    CongruentMod(Pow(s, b), Pow(Pow(g, e), b), N);
    ClientBase(k, g, x, b, N);
    CongruentPow(c, Pow(g, b), e, N);
    CongruentMod(Pow(c, e), Pow(Pow(g, b), e), N);
    PowPow(g, e, b);
    PowPow(g, b, e);
    assert e * b == b * e;
  }

  // Client and server arrive at the same S, for every modulus.
  lemma KeysAgree(k: nat, g: nat, x: nat, a: nat, b: nat, u: nat, N: nat)
    requires N > 0
    ensures var A, v := Pow(g, a) % N, Pow(g, x) % N;
      var B := (k * v + Pow(g, b)) % N;
      Pow(A * Pow(v, u), b) % N == Pow(B - k * Pow(g, x), ClientExponent(a, u, x)) % N
  {
    hide Pow, PublicB, ServerKey;
    ReducedKeysAgree(k, g, x, a, b, u, N);
    PublicBFormula(k, Pow(g, x) % N, g, b, N);
    ServerKeyFormula(Pow(g, a) % N, Pow(g, x) % N, u, b, N);
  }

  // ---- the server ----

  // BN_bn2bin into a caller's buffer.
  method Bn2Bin(n: nat, cs: array<Byte>)
    requires |Bin(n)| <= cs.Length
    modifies cs
    ensures cs[..|Bin(n)|] == Bin(n)
  {
    var bytes := Bin(n);
    for i := 0 to |bytes|
      invariant cs[..i] == bytes[..i]
    {
      cs[i] := bytes[i];
    }
  }

  method UpdateNumber(context: DigestContext, n: nat, cs: array<Byte>)
    requires |Bin(n)| <= cs.Length
    modifies context, cs
    ensures context.fed == old(context.fed) + Bin(n)
  {
    Bn2Bin(n, cs);
    context.Update(cs[..|Bin(n)|]);
  }

  datatype Session = Session(userName: Bytes, salt: Option<nat>, V: Option<nat>, b: Option<nat>, A: Option<nat>,
                             B: Option<nat>, S: Option<nat>, M1: Option<nat>, M2: Option<nat>)

  class SrpUtils {
    const sha1: Bytes -> Sha1Digest
    const N: nat
    const g: nat
    var userName: Bytes
    var salt: Option<nat>
    var V: Option<nat>
    var b: Option<nat>
    var A: Option<nat>
    var B: Option<nat>
    var S: Option<nat>
    var M1: Option<nat>
    var M2: Option<nat>

    ghost predicate Valid()
      reads this
    {
      && 1 < N && g < N && SHA_DIGEST_LENGTH <= |Bin(N)|
      && (B.Some? ==> B.value < N)
      && (S.Some? ==> S.value < N)
      && (M1.Some? ==> |Bin(M1.value)| <= SHA_DIGEST_LENGTH)
    }

    ghost function State(): Session
      reads this
    {
      Session(userName, salt, V, b, A, B, S, M1, M2)
    }

    constructor (sha1: Bytes -> Sha1Digest, N: nat, g: nat)
      requires 1 < N && g < N && SHA_DIGEST_LENGTH <= |Bin(N)|
      ensures Valid() && this.sha1 == sha1 && this.N == N && this.g == g
      ensures State() == Session("", None, None, None, None, None, None, None, None)
    {
      this.sha1, this.N, this.g := sha1, N, g;
      userName := "";
      salt, V, b, A := None, None, None, None;
      B, S, M1, M2 := None, None, None, None;
    }

    method SetI(name: Bytes)
      requires Valid()
      modifies this
      ensures Valid() && State() == old(State()).(userName := name)
    {
      userName := name;
    }

    // SRP_create_verifier_BN draws a salt only when the caller has none.
    method CalcV(callersSalt: Option<nat>, random: nat, password: Bytes) returns (usedSalt: nat)
      requires Valid()
      modifies this
      ensures Valid() && usedSalt == (if callersSalt.Some? then callersSalt.value else random)
      ensures State() == old(State()).(salt := Some(usedSalt), V := V)
      ensures V == Some(Pow(g, Number(sha1(Bin(usedSalt) + sha1(userName + ":" + password)))) % N)
    {
      usedSalt := match callersSalt case Some(s) => s case None => random;
      V := Some(PowMod(g, CalcX(sha1, usedSalt, userName, password), N));
      salt := Some(usedSalt);
    }

    method SetSaltAndV(newSalt: nat, newV: nat)
      requires Valid()
      modifies this
      ensures Valid() && State() == old(State()).(salt := Some(newSalt), V := Some(newV))
    {
      salt := Some(newSalt);
      V := Some(newV);
    }

    // random is the number in 32 random bytes.
    method CalcB(random: nat) returns (result: nat)
      requires Valid() && V.Some?
      modifies this
      ensures Valid() && State() == old(State()).(b := Some(random), B := Some(result))
      ensures result == (Number(sha1(Bin(N) + Pad(g, |Bin(N)|))) * V.value + Pow(g, random)) % N
    {
      PublicBFormula(CalcK(sha1, N, g), V.value, g, random, N);
      b := Some(random);
      result := PublicB(CalcK(sha1, N, g), V.value, g, random, N);
      B := Some(result);
    }

    // False is the branch behind assert(0).
    method VerifyA(pA: nat) returns (ok: bool)
      requires Valid()
      modifies this
      ensures Valid() && ok == (pA % N != 0)
      ensures State() == if ok then old(State()).(A := Some(pA)) else old(State())
    {
      if pA % N != 0 {
        A := Some(pA);
        return true;
      }
      return false;
    }

    // A number with more bytes than N runs past the end of the buffer: then the result is false.
    method CalcM1FromS() returns (fits: bool)
      requires Valid() && A.Some? && B.Some? && S.Some?
      modifies this
      ensures Valid() && fits == (|Bin(old(A.value))| <= |Bin(N)|)
      ensures fits ==>
        && State() == old(State()).(M1 := M1)
        && M1 == Some(Number(sha1(Bin(A.value) + Bin(B.value) + Bin(S.value))))
    {
      var context := new DigestContext();
      var cs := new Byte[|Bin(N)|];
      if |Bin(A.value)| > cs.Length { return false; }
      BinMonotone(B.value, N);
      BinMonotone(S.value, N);
      UpdateNumber(context, A.value, cs);
      UpdateNumber(context, B.value, cs);
      UpdateNumber(context, S.value, cs);
      assert "" + Bin(A.value) + Bin(B.value) + Bin(S.value) == Bin(A.value) + Bin(B.value) + Bin(S.value);
      BinOfNumber(sha1(context.fed));
      M1 := Some(Number(sha1(context.fed)));
      return true;
    }

    // Without u the code goes on with a null pointer; for u = 0 it ends in assert(0).
    method VerifyM1(pM1: nat) returns (check: Check)
      requires Valid() && A.Some? && B.Some? && V.Some? && b.Some?
      modifies this
      ensures Valid()
      ensures var s := old(State());
        var u := Number(sha1(Pad(s.A.value, |Bin(N)|) + Pad(s.B.value, |Bin(N)|)));
        if s.A.value >= N then check == NoU && State() == s
        else if u == 0 then check == ZeroU && State() == s
        else
          var key := Pow(s.A.value * Pow(s.V.value, u), s.b.value) % N;
          var proof := Number(sha1(Bin(s.A.value) + Bin(s.B.value) + Bin(key)));
          check == Compared(pM1 == proof) && State() == s.(S := Some(key), M1 := Some(proof))
    {
      var u := CalcU(sha1, A.value, B.value, N);
      if u.None? { return NoU; }
      if u.value != 0 {
        S := Some(ServerKey(A.value, V.value, u.value, b.value, N));
        ServerKeyFormula(A.value, V.value, u.value, b.value, N);
        BinMonotone(A.value, N);
        var _ := CalcM1FromS();
        return Compared(pM1 == M1.value);
      }
      return ZeroU;
    }

    // None when A runs past the end of the buffer.
    method CalcM2() returns (result: Option<nat>)
      requires Valid() && A.Some? && M1.Some? && S.Some?
      modifies this
      ensures Valid() && (result.Some? <==> |Bin(old(A.value))| <= |Bin(N)|)
      ensures result.Some? ==>
        && State() == old(State()).(M2 := result)
        && result.value == Number(sha1(Bin(A.value) + Bin(M1.value) + Bin(S.value)))
    {
      var context := new DigestContext();
      var cs := new Byte[|Bin(N)|];
      if |Bin(A.value)| > cs.Length { return None; }
      BinMonotone(S.value, N);
      UpdateNumber(context, A.value, cs);
      UpdateNumber(context, M1.value, cs);
      UpdateNumber(context, S.value, cs);
      assert "" + Bin(A.value) + Bin(M1.value) + Bin(S.value) == Bin(A.value) + Bin(M1.value) + Bin(S.value);
      result := Some(Number(sha1(context.fed)));
      M2 := result;
    }
  }

  datatype Check = NoU | ZeroU | Compared(equal: bool)

  // Numbers of N and more pass the test of VerifyA and then have no u.
  lemma AcceptedWithoutU(sha1: Bytes -> Sha1Digest, A: nat, B: nat, N: nat)
    requires 1 < N && B < N
    ensures CalcU(sha1, A, B, N) == None <==> A >= N
    ensures (N + 1) % N != 0 && CalcU(sha1, N + 1, B, N) == None
  {
    hide UOf;
    ModPlusMultiple(1, 1, N);
    SmallRemainder(1, N);
    assert 1 + 1 * N == N + 1;
  }

  // ---- the protocol, for any number received as A ----

  datatype Outcome = Refused | NullU | UIsZero | Verdict(accepted: bool, M2: Option<nat>)

  // Verifier and B, before the client answers.
  method Challenge(server: SrpUtils, user: Bytes, password: Bytes, callersSalt: Option<nat>, random: nat, b: nat)
    returns (salt: nat, B: nat)
    requires server.Valid()
    modifies server
    ensures server.Valid() && salt == match callersSalt case Some(s) => s case None => random
    ensures var x := Number(server.sha1(Bin(salt) + server.sha1(user + ":" + password)));
      var k := Number(server.sha1(Bin(server.N) + Pad(server.g, |Bin(server.N)|)));
      var v := Pow(server.g, x) % server.N;
      && B == (k * v + Pow(server.g, b)) % server.N
      && server.State() == old(server.State()).(
        userName := user, salt := Some(salt), b := Some(b), B := Some(B), V := Some(v))
  {
    hide Number, Bin, Pad, Pow;
    server.SetI(user);
    salt := server.CalcV(callersSalt, random, password);
    B := server.CalcB(b);
  }

  // VerifyA, VerifyM1 and, for a right M1, CalcM2: the calls reach a verdict, with no assertion failed and no null
  // pointer used, exactly when A is neither 0 mod N nor as large as N, and u is not 0.
  method Answer(server: SrpUtils, A: nat, pM1: nat) returns (outcome: Outcome)
    requires server.Valid() && server.V.Some? && server.b.Some? && server.B.Some?
    modifies server
    ensures server.Valid()
    ensures var s, N, sha1 := old(server.State()), server.N, server.sha1;
      var u := Number(sha1(Pad(A, |Bin(N)|) + Pad(s.B.value, |Bin(N)|)));
      && (outcome == Refused <==> A % N == 0)
      && (outcome == NullU <==> A % N != 0 && A >= N)
      && (outcome == UIsZero <==> A % N != 0 && A < N && u == 0)
      && (outcome.Verdict? <==> A % N != 0 && A < N && u != 0)
      && (outcome.Verdict? ==>
           var key := Pow(A * Pow(s.V.value, u), s.b.value) % N;
           && outcome.accepted == (pM1 == Number(sha1(Bin(A) + Bin(s.B.value) + Bin(key))))
           && outcome.M2 == if outcome.accepted then Some(Number(sha1(Bin(A) + Bin(pM1) + Bin(key)))) else None)
  {
    hide Bin, Number, Pad, Pow;
    BinMonotoneBelow(A, server.N);
    var ok := server.VerifyA(A);
    if !ok { return Refused; }
    var check := server.VerifyM1(pM1);
    match check
    case NoU => return NullU;
    case ZeroU => return UIsZero;
    case Compared(equal) =>
      if !equal { return Verdict(false, None); }
      var m2 := server.CalcM2();
      return Verdict(true, m2);
  }

  lemma BinMonotoneBelow(m: nat, n: nat)
    ensures m < n ==> |Bin(m)| <= |Bin(n)|
  {
    if m < n { BinMonotone(m, n); }
  }

  // ---- the client, written out from sections 2.5 and 2.6 of RFC 5054 alone, and a whole login ----

  datatype Client = Client(A: nat, u: nat, S: nat, M1: nat, M2: nat)

  function ClientOf(sha1: Bytes -> Sha1Digest, N: nat, g: nat, user: Bytes, password: Bytes, salt: nat, a: nat,
                    B: nat): Client
    requires N > 0
  {
    var A := Pow(g, a) % N;
    var x := Number(sha1(Bin(salt) + sha1(user + ":" + password)));
    var k := Number(sha1(Bin(N) + Pad(g, |Bin(N)|)));
    var u := Number(sha1(Pad(A, |Bin(N)|) + Pad(B, |Bin(N)|)));
    var S := Pow(B - k * Pow(g, x), ClientExponent(a, u, x)) % N;
    var M1 := Number(sha1(Bin(A) + Bin(B) + Bin(S)));
    Client(A, u, S, M1, Number(sha1(Bin(A) + Bin(M1) + Bin(S))))
  }

  // A client that knows the password is accepted, and its own M2 is the server's, exactly when neither of the values
  // the protocol refuses comes up: A = 0 (mod N) or u = 0.
  method Login(sha1: Bytes -> Sha1Digest, N: nat, g: nat, user: Bytes, password: Bytes, callersSalt: Option<nat>,
               random: nat, a: nat, b: nat)
    returns (accepted: bool, salt: nat, B: nat, serverM2: Option<nat>)
    requires 1 < N && g < N && SHA_DIGEST_LENGTH <= |Bin(N)|
    ensures salt == match callersSalt case Some(s) => s case None => random
    ensures var client := ClientOf(sha1, N, g, user, password, salt, a, B);
      && (accepted <==> client.A != 0 && client.u != 0)
      && serverM2 == if accepted then Some(client.M2) else None
  {
    hide Bin, Number, Pad, Pow;
    var server := new SrpUtils(sha1, N, g);
    salt, B := Challenge(server, user, password, callersSalt, random, b);
    var client := ClientOf(sha1, N, g, user, password, salt, a, B);
    SmallRemainder(client.A, N);
    KeysAgree(Number(sha1(Bin(N) + Pad(g, |Bin(N)|))), g, Number(sha1(Bin(salt) + sha1(user + ":" + password))), a, b,
              client.u, N);
    var outcome := Answer(server, client.A, client.M1);
    accepted := outcome.Verdict? && outcome.accepted;
    serverM2 := if outcome.Verdict? then outcome.M2 else None;
  }

  lemma SmallRemainder(x: nat, N: nat)
    requires x < N
    ensures x % N == x
  {
  }
}
