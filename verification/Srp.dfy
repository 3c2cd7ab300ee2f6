/**
 * The SRP-6a client (web/srp.js) and its agreement with the server of RFC 5054.
 */
module Srp {
  import opened Bits
  import opened Bytes
  import opened Modular
  import opened Blake2b
  import Stream = Blake2bStream

  // ---- modPow ----

  /** JavaScript's %, which takes the sign of the dividend. */
  function JsRem(a: int, m: int): int
    requires m > 0
  {
    if a >= 0 then a % m else -((-a) % m)
  }

  lemma JsRemSame(a: int, m: int)
    requires m > 0
    ensures Same(JsRem(a, m), a, m) && -m < JsRem(a, m) < m
  {
    if a >= 0 {
      SameRemainder(a, m);
    } else {
      SameRemainder(-a, m);
      Itself(0, m);
      SameSum(0, 0, (-a) % m, -a, m);
    }
  }

  /** A remainder of either sign, made non-negative by adding the modulus once. */
  lemma SignFix(a: int, m: int)
    requires m > 0
    ensures JsRem(a, m) + (if JsRem(a, m) < 0 then m else 0) == a % m
    ensures JsRem(JsRem(a, m) + m, m) == a % m
  {
    hide Same, JsRem;
    JsRemSame(a, m);
    SameValues(JsRem(a, m), a, m);
    ModMultiple(JsRem(a, m), 1, m);
    JsRemOfSum(a, m);
  }

  lemma SameValues(a: int, b: int, m: int)
    requires m > 0 && Same(a, b, m) && -m < a < m
    ensures a + (if a < 0 then m else 0) == b % m
  {
    if a >= 0 {
      ModUnique(a, m, 0, a);
    } else {
      ModUnique(a, m, -1, a + m);
    }
  }

  lemma JsRemOfSum(a: int, m: int)
    requires m > 0
    ensures JsRem(JsRem(a, m) + m, m) == (JsRem(a, m) + m) % m
  {
    JsRemSame(a, m);
  }

  /** One turn of square-and-multiply keeps result * base^exp. */
  lemma {:induction false} SquareStep(r: int, x: int, y: nat, m: int)
    requires m > 0 && y > 0
    ensures Same((if y % 2 == 1 then (r * x) % m else r) * Power((x * x) % m, y / 2), r * Power(x, y), m)
  {
    hide Same, Power;
    var odd := if y % 2 == 1 then x else 1;
    var p, p' := Power(x * x, y / 2), Power((x * x) % m, y / 2);
    SameRemainder(x * x, m);
    SamePower((x * x) % m, x * x, y / 2, m);
    SameRemainder(r * x, m);
    Itself(r, m);
    var r' := if y % 2 == 1 then (r * x) % m else r;
    assert Same(r', r * odd, m);
    SameProduct(r', r * odd, p', p, m);
    PowerHalves(x, y);
    Associates(r, odd, p);
    Commutes(odd, p);
  }

  function ModPowSpec(b: int, e: nat, m: nat): nat
    requires m > 0
  {
    if e == 0 then 1 else Power(b, e) % m
  }

  /** modPow is the power modulo m, except that it gives 1 for the exponent 0 and the modulus 1. */
  lemma {:induction false} ModPowExact(b: int, e: nat, m: nat)
    requires m > 0
    ensures ModPowSpec(b, e, m) == Power(b, e) % m <==> !(e == 0 && m == 1)
  {
    assert m > 1 ==> 1 % m == 1;
  }

  /** Square and multiply. */
  method ModPow(b: int, e: nat, m: nat) returns (result: nat)
    requires m > 0
    ensures result == ModPowSpec(b, e, m)
  {
    hide JsRem, Power;
    var base := JsRem(JsRem(b, m) + m, m);
    SignFix(b, m);
    SameRemainder(b, m);
    SamePower(base, b, e, m);
    var exp := e;
    result := 1;
    while exp > 0
      invariant 0 <= exp <= e && base >= 0 && (result < m || (result == 1 && (exp > 0 || e == 0)))
      invariant e == 0 ==> result == 1
      invariant Same(result * Power(base, exp), Power(b, e), m)
    {
      SquareStep(result, base, exp, m);
      if exp % 2 == 1 {
        result := (result * base) % m;
      }
      exp := exp / 2;
      base := (base * base) % m;
    }
    PowerZero(base);
    if e > 0 {
      ModUnique(result, m, 0, result);
    }
  }

  lemma {:induction false} PowerZero(b: int)
    ensures Power(b, 0) == 1
  {
  }

  // ---- The algebra ----

  /** The modulus and the generator, and the number of bytes of the modulus. */
  datatype Group = Group(n: nat, g: nat, size: nat)

  predicate ValidGroup(p: Group) {
    p.n > 1
  }

  /** The client's base: B - k g^x, by the sign fix of the source, is g^b. */
  lemma {:induction false} ClientBase(p: Group, k: nat, x: nat, b: nat, B: nat)
    requires ValidGroup(p)
    requires Same(B, k * ModPowSpec(p.g, x, p.n) + Power(p.g, b), p.n)
    ensures Same(B - k * ModPowSpec(p.g, x, p.n), Power(p.g, b), p.n)
  {
    hide Same, Power, ModPowSpec;
    var kv := k * ModPowSpec(p.g, x, p.n);
    Itself(kv, p.n);
    SameSum(B, kv + Power(p.g, b), kv, kv, p.n);
  }

  lemma ProductOrder(a: nat, u: nat, x: nat, b: nat)
    ensures b * (a + u * x) == (a + x * u) * b
  {
    Commutes(u, x);
    Commutes(b, a + u * x);
  }

  /**
   * The shared secret (section 2.6 of RFC 5054): the client's (B - k g^x)^(a + u x) equals the server's
   * (A v^u)^b, whatever the exponents and the multiplier.
   */
  lemma SecretsAgree(p: Group, a: nat, b: nat, x: nat, u: nat, k: nat, B: nat)
    requires ValidGroup(p)
    requires Same(B, k * ModPowSpec(p.g, x, p.n) + Power(p.g, b), p.n)
    ensures Power(B - k * ModPowSpec(p.g, x, p.n), a + u * x) % p.n
         == Power(ModPowSpec(p.g, a, p.n) * Power(ModPowSpec(p.g, x, p.n), u), b) % p.n
  {
    hide Same, Power, ModPowSpec;
    var g, n := p.g, p.n;
    var A, v := ModPowSpec(g, a, n), ModPowSpec(g, x, n);
    ClientBase(p, k, x, b, B);
    SamePower(B - k * v, Power(g, b), a + u * x, n);
    PowerOfPower(g, b, a + u * x);
    ProductOrder(a, u, x, b);
    PowerOfPower(g, a + x * u, b);
    PowerSum(g, a, x * u);
    PowerOfPower(g, x, u);
    ModPowSame(g, a, n);
    ModPowSame(g, x, n);
    SamePower(v, Power(g, x), u, n);
    SameProduct(A, Power(g, a), Power(v, u), Power(Power(g, x), u), n);
    SamePower(A * Power(v, u), Power(g, a) * Power(Power(g, x), u), b, n);
    Transitive(Power(B - k * v, a + u * x), Power(Power(g, b), a + u * x), Power(A * Power(v, u), b), n);
  }

  lemma Transitive(a: int, b: int, c: int, n: int)
    requires n > 0 && Same(a, b, n) && Same(c, b, n)
    ensures a % n == c % n
  {
  }

  lemma {:induction false} ModPowSame(b: int, e: nat, n: nat)
    requires n > 1
    ensures Same(ModPowSpec(b, e, n), Power(b, e), n)
  {
    hide Power;
    SameRemainder(Power(b, e), n);
    ModPowExact(b, e, n);
  }

  // ---- Numbers as bytes ----

  type hex = x: int | 0 <= x < 16

  /** n.toString(16), most significant digit first. */
  function ToHex(n: nat): (r: seq<hex>)
    ensures |r| > 0
  {
    if n < 16 then [n] else ToHex(n / 16) + [n % 16]
  }

  /** Big-endian bytes without leading zeros; one zero byte for zero. */
  function MinBytes(n: nat): (r: seq<byte>)
    ensures |r| > 0
  {
    if n < 256 then [n] else MinBytes(n / 256) + [n % 256]
  }

  /** The bytes of Go's big.Int: none for zero. */
  function GoBytes(n: nat): seq<byte> {
    if n == 0 then [] else GoBytes(n / 256) + [n % 256]
  }

  /** The two differ for zero, and for nothing else. */
  lemma {:induction false} MinBytesIsGoBytes(n: nat)
    ensures MinBytes(n) == GoBytes(n) <==> n != 0
  {
    if n >= 256 {
      MinBytesIsGoBytes(n / 256);
    } else if n > 0 {
      assert GoBytes(n / 256) == [];
    }
  }

  function Padded(n: nat, size: nat): seq<byte> {
    Zeros(if |MinBytes(n)| < size then size - |MinBytes(n)| else 0) + MinBytes(n)
  }

  /** MinBytes is the big-endian form with no superfluous zero. */
  lemma {:induction false} MinBytesValue(n: nat)
    ensures BeNat(MinBytes(n)) == n && (n > 0 ==> MinBytes(n)[0] > 0)
  {
    if n < 256 {
      assert MinBytes(n)[..0] == [];
    } else {
      MinBytesValue(n / 256);
      assert MinBytes(n)[..|MinBytes(n)| - 1] == MinBytes(n / 256);
    }
  }

  /** pad keeps the value, and fills up to the field size exactly. */
  lemma {:induction false} PaddedValue(n: nat, size: nat)
    ensures BeNat(Padded(n, size)) == n
    ensures |Padded(n, size)| == if |MinBytes(n)| < size then size else |MinBytes(n)|
  {
    hide MinBytes, BeNat, Zeros;
    MinBytesValue(n);
    ZerosInFront(if |MinBytes(n)| < size then size - |MinBytes(n)| else 0, MinBytes(n));
  }

  function Octet(high: hex, low: hex): byte {
    16 * (high as int) + low
  }

  function Pairs(h: seq<hex>): (r: seq<byte>)
    requires |h| % 2 == 0
    ensures |r| == |h| / 2
  {
    seq(|h| / 2, i requires 0 <= i < |h| / 2 => Octet(h[2 * i], h[2 * i + 1]))
  }

  function EvenHex(n: nat): (r: seq<hex>)
    ensures |r| % 2 == 0
  {
    if |ToHex(n)| % 2 == 1 then [0] + ToHex(n) else ToHex(n)
  }

  lemma {:induction false} ToHexLarge(n: nat)
    requires n >= 256
    ensures ToHex(n) == ToHex(n / 256) + [n / 16 % 16, n % 16]
  {
    assert n / 16 >= 16 && n / 16 / 16 == n / 256;
    assert ToHex(n / 16) == ToHex(n / 256) + [n / 16 % 16];
  }

  lemma PairsAppend(h: seq<hex>, high: hex, low: hex)
    requires |h| % 2 == 0
    ensures Pairs(h + [high, low]) == Pairs(h) + [Octet(high, low)]
  {
    hide Octet;
    var t := h + [high, low];
    forall i | 0 <= i < |h| / 2 ensures Pairs(t)[i] == Pairs(h)[i] {
      assert t[2 * i] == h[2 * i] && t[2 * i + 1] == h[2 * i + 1];
    }
  }

  lemma {:induction false} EvenHexPairs(n: nat)
    ensures Pairs(EvenHex(n)) == MinBytes(n)
  {
    hide Pairs;
    if n < 256 {
      SmallHex(n);
    } else {
      EvenHexPairs(n / 256);
      ToHexLarge(n);
      EvenHexLarge(n, ToHex(n / 256), n / 16 % 16, n % 16);
      PairsAppend(EvenHex(n / 256), n / 16 % 16, n % 16);
    }
  }

  lemma {:induction false} EvenHexLarge(n: nat, h: seq<hex>, high: hex, low: hex)
    requires n >= 256 && h == ToHex(n / 256) && ToHex(n) == h + [high, low]
    ensures EvenHex(n) == EvenHex(n / 256) + [high, low]
  {
    hide ToHex;
    assert [0] + (h + [high, low]) == ([0] + h) + [high, low];
  }

  lemma {:induction false} SmallHex(n: nat)
    requires n < 256
    ensures Pairs(EvenHex(n)) == MinBytes(n)
  {
    if n < 16 {
      assert EvenHex(n) == [0, n];
    } else {
      assert ToHex(n / 16) == [n / 16];
      assert EvenHex(n) == [n / 16, n % 16];
    }
  }

  /** hexToBytes: one byte for every two digits. */
  method HexToBytes(h: seq<hex>) returns (bytes: seq<byte>)
    requires |h| % 2 == 0
    ensures bytes == Pairs(h)
  {
    var out := new byte[|h| / 2];
    var i := 0;
    while i < |h|
      invariant 0 <= i <= |h| && i % 2 == 0
      invariant forall j :: 0 <= j < i / 2 ==> out[j] == Pairs(h)[j]
    {
      out[i / 2] := Octet(h[i], h[i + 1]);
      i := i + 2;
    }
    bytes := out[..];
  }

  method BigintToMinBytes(n: nat) returns (bytes: seq<byte>)
    ensures bytes == MinBytes(n)
  {
    if n == 0 {
      return [0];
    }
    var h := ToHex(n);
    if |h| % 2 == 1 {
      h := [0] + h;
    }
    EvenHexPairs(n);
    bytes := HexToBytes(h);
  }

  method Pad(n: nat, size: nat) returns (bytes: seq<byte>)
    ensures bytes == Padded(n, size)
  {
    hide ToHex, MinBytes, Pairs, Zeros, Padded;
    var h := ToHex(n);
    if |h| % 2 == 1 {
      h := [0] + h;
    }
    EvenHexPairs(n);
    ghost var z := 0;
    MoreZeros(0, MinBytes(n));
    while |h| < size * 2
      invariant |h| == 2 * z + 2 * |MinBytes(n)| && (z == 0 || |h| <= 2 * size)
      invariant Pairs(h) == Zeros(z) + MinBytes(n)
      decreases size * 2 - |h|
    {
      ZerosPairs(h);
      MoreZeros(z, MinBytes(n));
      z := z + 1;
      h := [0, 0] + h;
    }
    PaddedIs(n, size, z);
    bytes := HexToBytes(h);
  }

  lemma {:induction false} PaddedIs(n: nat, size: nat, z: nat)
    requires z == if |MinBytes(n)| < size then size - |MinBytes(n)| else 0
    ensures Padded(n, size) == Zeros(z) + MinBytes(n)
  {
  }

  lemma MoreZeros(z: nat, s: seq<byte>)
    ensures [0] + (Zeros(z) + s) == Zeros(z + 1) + s
    ensures Zeros(0) + s == s
  {
  }

  lemma ZerosPairs(h: seq<hex>)
    requires |h| % 2 == 0
    ensures Pairs([0, 0] + h) == [0] + Pairs(h)
  {
    forall i | 0 <= i < |h| / 2 ensures Pairs([0, 0] + h)[i + 1] == Pairs(h)[i] {
      assert ([0, 0] + h)[2 * (i + 1)] == h[2 * i] && ([0, 0] + h)[2 * (i + 1) + 1] == h[2 * i + 1];
    }
  }

  // ---- The hashes of the protocol ----

  function H(parts: seq<seq<byte>>): (r: seq<byte>)
    ensures |r| == 32
  {
    Digest(Flatten(parts), 32)
  }

  method Hash(parts: seq<seq<byte>>) returns (r: seq<byte>)
    ensures r == H(parts)
  {
    hide Digest;
    var out := Stream.Blake2b256Multi(parts);
    r := out[..];
  }

  function Multiplier(p: Group): nat {
    BeNat(H([MinBytes(p.n), Padded(p.g, p.size)]))
  }

  function Scrambler(p: Group, A: nat, B: nat): nat {
    BeNat(H([Padded(A, p.size), Padded(B, p.size)]))
  }

  /** x, from the hashed identity, the hashed password and the salt, in this order. */
  function PrivateKey(identity: seq<byte>, password: seq<byte>, salt: seq<byte>): nat {
    BeNat(H([H([identity]), H([password]), salt]))
  }

  function SessionKey(S: nat): seq<byte> {
    H([MinBytes(S)])
  }

  function Proof(p: Group, S: nat, A: nat, B: nat, ih: seq<byte>, salt: seq<byte>): seq<byte> {
    H([SessionKey(S), MinBytes(A), MinBytes(B), ih, salt, MinBytes(p.n), MinBytes(p.g)])
  }

  // ---- What is hashed ----

  /** The value of a byte string lies below the power of 256 of its length. */
  lemma {:induction false} ShortestFits(n: nat, size: nat)
    requires n < Pow256(size) && size > 0
    ensures |MinBytes(n)| <= size
    decreases size
  {
    assert Pow256(size) == 256 * Pow256(size - 1);
    if n >= 256 && size > 1 {
      ShortestFits(n / 256, size - 1);
    }
  }

  lemma PaddedFits(n: nat, size: nat)
    requires n < Pow256(size) && size > 0
    ensures |Padded(n, size)| == size && BeNat(Padded(n, size)) == n
  {
    hide MinBytes, BeNat;
    ShortestFits(n, size);
    PaddedValue(n, size);
  }

  lemma {:induction false} FlattenTwo(a: seq<byte>, b: seq<byte>)
    ensures Flatten([a, b]) == a + b
  {
    FlattenFirst(a, [b]);
    FlattenFirst(b, []);
    assert [a] + [b] == [a, b] && [b] + [] == [b] && Flatten([]) == [] && b + [] == b;
  }

  /** The text hashed for u has A and B side by side, so that no other pair of group elements has the same. */
  lemma ScramblerText(p: Group, A: nat, B: nat) returns (text: seq<byte>)
    requires p.size > 0 && A < Pow256(p.size) && B < Pow256(p.size)
    ensures Scrambler(p, A, B) == BeNat(H([text])) && |text| == 2 * p.size
    ensures BeNat(text[..p.size]) == A && BeNat(text[p.size..]) == B
  {
    hide Padded, BeNat, Digest;
    text := Padded(A, p.size) + Padded(B, p.size);
    PaddedFits(A, p.size);
    PaddedFits(B, p.size);
    FlattenTwo(Padded(A, p.size), Padded(B, p.size));
    FlattenOne(text);
  }

  /** The text hashed for k has N in front of the padded generator. */
  lemma MultiplierText(p: Group) returns (text: seq<byte>)
    requires p.size > 0 && p.g < Pow256(p.size)
    ensures Multiplier(p) == BeNat(H([text])) && |text| > p.size
    ensures BeNat(text[..|text| - p.size]) == p.n && (p.n > 0 ==> text[0] > 0)
    ensures BeNat(text[|text| - p.size..]) == p.g
  {
    hide Padded, MinBytes, BeNat, Digest;
    text := MinBytes(p.n) + Padded(p.g, p.size);
    MinBytesValue(p.n);
    PaddedFits(p.g, p.size);
    FlattenTwo(MinBytes(p.n), Padded(p.g, p.size));
    FlattenOne(text);
  }

  lemma {:induction false} FlattenOne(a: seq<byte>)
    ensures Flatten([a]) == a
  {
    FlattenFirst(a, []);
    assert [a] + [] == [a] && Flatten([]) == [] && a + [] == a;
  }

  /** The text hashed for x has the hash of the identity, that of the password and the salt, in this order. */
  lemma PrivateKeyText(identity: seq<byte>, password: seq<byte>, salt: seq<byte>) returns (text: seq<byte>)
    ensures PrivateKey(identity, password, salt) == BeNat(H([text])) && |text| == 64 + |salt|
    ensures text[..32] == H([identity]) && text[32..64] == H([password]) && text[64..] == salt
  {
    hide BeNat, Digest, H;
    var i, w := H([identity]), H([password]);
    text := i + (w + salt);
    FlattenFirst(i, [w, salt]);
    FlattenTwo(w, salt);
    assert [i] + [w, salt] == [i, w, salt];
    SameText([i, w, salt], text);
  }

  lemma SameText(parts: seq<seq<byte>>, text: seq<byte>)
    requires Flatten(parts) == text
    ensures H(parts) == H([text])
  {
    hide Digest;
    FlattenOne(text);
  }

  /** The client's proof is the hash of K, A, B, H(I), the salt, N and g, in this order. */
  lemma ProofText(p: Group, S: nat, A: nat, B: nat, ih: seq<byte>, salt: seq<byte>) returns (text: seq<byte>)
    ensures Proof(p, S, A, B, ih, salt) == H([text])
    ensures text == H([MinBytes(S)]) + (MinBytes(A) + (MinBytes(B) + (ih + (salt + (MinBytes(p.n) + MinBytes(p.g))))))
  {
    hide Digest, H, MinBytes;
    var k, a, b, n, g := H([MinBytes(S)]), MinBytes(A), MinBytes(B), MinBytes(p.n), MinBytes(p.g);
    text := k + (a + (b + (ih + (salt + (n + g)))));
    FlattenTwo(n, g);
    FlattenFirst(salt, [n, g]);
    FlattenFirst(ih, [salt, n, g]);
    FlattenFirst(b, [ih, salt, n, g]);
    FlattenFirst(a, [b, ih, salt, n, g]);
    FlattenFirst(k, [a, b, ih, salt, n, g]);
    assert [salt] + [n, g] == [salt, n, g] && [ih] + [salt, n, g] == [ih, salt, n, g];
    assert [b] + [ih, salt, n, g] == [b, ih, salt, n, g] && [a] + [b, ih, salt, n, g] == [a, b, ih, salt, n, g];
    assert [k] + [a, b, ih, salt, n, g] == [k, a, b, ih, salt, n, g];
    SameText([k, a, b, ih, salt, n, g], text);
  }

  // ---- The server, as RFC 5054 has it ----

  function ServerPublic(p: Group, v: nat, b: nat): nat
    requires ValidGroup(p)
  {
    (Multiplier(p) * v + Power(p.g, b)) % p.n
  }

  function ServerSecret(p: Group, v: nat, A: nat, B: nat, b: nat): nat
    requires ValidGroup(p)
  {
    Power(A * Power(v, Scrambler(p, A, B)), b) % p.n
  }

  // ---- The client ----

  method GenerateVerifier(p: Group, identity: seq<byte>, password: seq<byte>, salt: seq<byte>) returns (v: nat)
    requires ValidGroup(p)
    ensures v == ModPowSpec(p.g, PrivateKey(identity, password, salt), p.n)
  {
    hide ModPowSpec, BeNat, H;
    var ih := Hash([identity]);
    var ph := Hash([password]);
    var x := Hash([ih, ph, salt]);
    v := ModPow(p.g, BeNat(x), p.n);
  }

  datatype Answer = Sent(proof: seq<byte>) | InvalidB | InvalidU

  class Client {
    const p: Group
    var ih: seq<byte>
    var ph: seq<byte>
    var a: nat
    var A: nat
    var k: nat
    var salt: seq<byte>
    var B: nat
    var K: seq<byte>
    var M: seq<byte>

    /** a is the random private key. */
    constructor (p: Group, identity: seq<byte>, password: seq<byte>, a: nat)
      requires ValidGroup(p)
      ensures this.p == p && this.a == a && Ready(identity, password)
    {
      hide ModPowSpec, H, MinBytes, Padded, BeNat;
      this.p, this.a, this.B, this.salt, this.K, this.M := p, a, 0, [], [], [];
      var i := Hash([identity]);
      var w := Hash([password]);
      ih, ph := i, w;
      var A' := ModPow(p.g, a, p.n);
      A := A';
      var n := BigintToMinBytes(p.n);
      var g := Pad(p.g, p.size);
      var m := Hash([n, g]);
      k := BeNat(m);
    }

    ghost predicate Ready(identity: seq<byte>, password: seq<byte>)
      reads this
    {
      ValidGroup(p) && ih == H([identity]) && ph == H([password]) && A == ModPowSpec(p.g, a, p.n) && k == Multiplier(p)
    }

    /** The secret of the client from the server's public value, as the source computes it. */
    ghost function Secret(B: nat): nat
      reads this
      requires ValidGroup(p)
    {
      hide BeNat, H, ModPowSpec, Scrambler;
      var x := BeNat(H([ih, ph, salt]));
      ModPowSpec((B - k * ModPowSpec(p.g, x, p.n)) % p.n, a + Scrambler(p, A, B) * x, p.n)
    }

    method Generate(salt: seq<byte>, B: nat) returns (r: Answer)
      requires ValidGroup(p)
      modifies this
      ensures ih == old(ih) && ph == old(ph) && a == old(a) && A == old(A) && k == old(k)
      ensures this.salt == salt && this.B == B
      ensures r == if B % p.n == 0 then InvalidB else if Scrambler(p, A, B) == 0 then InvalidU
                   else Sent(Proof(p, Secret(B), A, B, ih, salt))
      ensures r.Sent? ==> K == SessionKey(Secret(B)) && M == r.proof
    {
      hide ModPowSpec, H, MinBytes, Padded, BeNat, JsRem;
      this.salt, this.B := salt, B;
      if B % p.n == 0 {
        return InvalidB;
      }
      var padA := Pad(A, p.size);
      var padB := Pad(B, p.size);
      var uBytes := Hash([padA, padB]);
      var u := BeNat(uBytes);
      if u == 0 {
        return InvalidU;
      }
      var xBytes := Hash([ih, ph, salt]);
      var x := BeNat(xBytes);
      var gx := ModPow(p.g, x, p.n);
      var t1 := JsRem(B - k * gx, p.n);
      SignFix(B - k * gx, p.n);
      if t1 < 0 {
        t1 := t1 + p.n;
      }
      var S := ModPow(t1, a + u * x, p.n);
      var sBytes := BigintToMinBytes(S);
      K := Hash([sBytes]);
      var aBytes := BigintToMinBytes(A);
      var bBytes := BigintToMinBytes(B);
      var nBytes := BigintToMinBytes(p.n);
      var gBytes := BigintToMinBytes(p.g);
      M := Hash([K, aBytes, bBytes, ih, salt, nBytes, gBytes]);
      r := Sent(M);
    }

    method ServerOk(proof: seq<byte>) returns (ok: bool)
      ensures ok == (proof == H([K, M]))
    {
      hide H;
      var expected := Hash([K, M]);
      ok := expected == proof;
    }
  }

  /** The client's secret for the right password is the server's. */
  lemma {:induction false} ClientSecretIsServerSecret(p: Group, a: nat, b: nat, x: nat, u: nat, k: nat, B: nat)
    requires ValidGroup(p) && Same(B, k * ModPowSpec(p.g, x, p.n) + Power(p.g, b), p.n)
    ensures ModPowSpec((B - k * ModPowSpec(p.g, x, p.n)) % p.n, a + u * x, p.n)
         == Power(ModPowSpec(p.g, a, p.n) * Power(ModPowSpec(p.g, x, p.n), u), b) % p.n
  {
    hide Power, ModPowSpec;
    var t := B - k * ModPowSpec(p.g, x, p.n);
    SecretsAgree(p, a, b, x, u, k, B);
    SameRemainder(t, p.n);
    SamePower(t % p.n, t, a + u * x, p.n);
    ModPowExact(t % p.n, a + u * x, p.n);
  }

  // ---- Zeros among the hashed numbers ----

  /** g has an inverse modulo n. */
  predicate Invertible(g: nat, h: nat, n: nat)
    requires n > 0
  {
    Same(g * h, 1, n)
  }

  /** The generator of the source is 2, and its modulus odd. */
  lemma TwoIsInvertible(n: nat)
    requires n % 2 == 1
    ensures Invertible(2, (n + 1) / 2, n)
  {
    assert 2 * ((n + 1) / 2) == 1 + 1 * n;
    ModMultiple(1, 1, n);
    Itself(1, n);
  }

  lemma {:induction false} PowerOfOne(e: nat)
    ensures Power(1, e) == 1
  {
    if e > 0 {
      PowerOfOne(e - 1);
    }
  }

  /** A power of an invertible number is not zero. */
  lemma {:induction false} PowerNotZero(g: nat, h: nat, n: nat, e: nat)
    requires n > 1 && Invertible(g, h, n)
    ensures Power(g, e) % n != 0
  {
    hide Power;
    PowerOfProduct(g, h, e);
    SamePower(g * h, 1, e, n);
    PowerOfOne(e);
    if Power(g, e) % n == 0 {
      ZeroRemainder(Power(g, e), n);
      SameFactor(Power(g, e), 0, Power(h, e), n);
      Transitive(0, Power(g, e) * Power(h, e), 1, n);
      ModUnique(1, n, 0, 1);
    }
  }

  lemma ZeroRemainder(a: int, n: int)
    requires n > 0 && a % n == 0
    ensures Same(a, 0, n)
  {
  }

  /** With an invertible generator, no number that the client of an honest server hashes is zero. */
  lemma {:induction false} NoZeroHashed(p: Group, h: nat, a: nat, b: nat, x: nat, u: nat, k: nat, B: nat)
    requires ValidGroup(p) && Invertible(p.g, h, p.n)
    requires Same(B, k * ModPowSpec(p.g, x, p.n) + Power(p.g, b), p.n)
    ensures p.g != 0 && ModPowSpec(p.g, a, p.n) != 0
    ensures ModPowSpec((B - k * ModPowSpec(p.g, x, p.n)) % p.n, a + u * x, p.n) != 0
  {
    hide Power, ModPowSpec, Same;
    var t, e := B - k * ModPowSpec(p.g, x, p.n), a + u * x;
    GeneratorNotZero(p.g, h, p.n);
    PowerNotZero(p.g, h, p.n, a);
    ModPowExact(p.g, a, p.n);
    ClientBase(p, k, x, b, B);
    SameRemainder(t, p.n);
    SamePower(t % p.n, t, e, p.n);
    SamePower(t, Power(p.g, b), e, p.n);
    PowerOfPower(p.g, b, e);
    PowerNotZero(p.g, h, p.n, b * e);
    SameIsEqual(Power(t % p.n, e), Power(t, e), p.n);
    SameIsEqual(Power(t, e), Power(Power(p.g, b), e), p.n);
    ModPowExact(t % p.n, e, p.n);
  }

  lemma GeneratorNotZero(g: nat, h: nat, n: nat)
    requires n > 1 && Invertible(g, h, n)
    ensures g != 0
  {
    ModUnique(1, n, 0, 1);
    ModUnique(0, n, 0, 0);
  }

  lemma SameIsEqual(a: int, b: int, n: int)
    requires n > 0 && Same(a, b, n)
    ensures a % n == b % n
  {
  }

  /** A server that sends a B congruent to k v, which the client does not refuse, makes it hash the secret zero. */
  lemma {:induction false} ZeroSecret(p: Group, x: nat, k: nat, B: nat, e: nat)
    requires ValidGroup(p) && Same(B, k * ModPowSpec(p.g, x, p.n), p.n) && e > 0
    ensures ModPowSpec((B - k * ModPowSpec(p.g, x, p.n)) % p.n, e, p.n) == 0
  {
    hide ModPowSpec, Same;
    var kv := k * ModPowSpec(p.g, x, p.n);
    Itself(kv, p.n);
    SameSum(B, kv, kv, kv, p.n);
    SameIsEqual(B - kv, kv - kv, p.n);
    ModUnique(0, p.n, 0, 0);
    ModPowExact(0, e, p.n);
    assert Power(0, e) == 0 * Power(0, e - 1);
  }

  /**
   * A whole login against the server of RFC 5054 that holds the verifier of the same identity, password and salt:
   * unless the public value or the scrambler degenerates, the proofs and the session keys agree on both sides.
   */
  method Login(p: Group, identity: seq<byte>, password: seq<byte>, salt: seq<byte>, a: nat, b: nat)
    returns (r: Answer, K: seq<byte>, ok: bool)
    requires ValidGroup(p)
    ensures var x := PrivateKey(identity, password, salt);
            var v, A := ModPowSpec(p.g, x, p.n), ModPowSpec(p.g, a, p.n);
            var B := ServerPublic(p, v, b);
            var S := ServerSecret(p, v, A, B, b);
            && (r.Sent? <==> B != 0 && Scrambler(p, A, B) != 0)
            && (r.Sent? ==> K == SessionKey(S) && r.proof == Proof(p, S, A, B, H([identity]), salt) && ok)
  {
    hide ModPowSpec, H, MinBytes, Padded, BeNat, Power;
    var v := GenerateVerifier(p, identity, password, salt);
    var client := new Client(p, identity, password, a);
    var B := ServerPublic(p, v, b);
    r := client.Generate(salt, B);
    ghost var x := PrivateKey(identity, password, salt);
    SameRemainder(client.k * v + Power(p.g, b), p.n);
    ClientSecretIsServerSecret(p, a, b, x, Scrambler(p, client.A, B), client.k, B);
    ModUnique(B, p.n, 0, B);
    K := client.K;
    ok := false;
    if r.Sent? {
      var S := ServerSecret(p, v, client.A, B, b);
      ok := client.ServerOk(H([SessionKey(S), Proof(p, S, client.A, B, client.ih, salt)]));
    }
  }
}
