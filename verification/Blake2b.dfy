/**
  BLAKE2b (RFC 7693, section 3) on 64-bit words: what the two implementations, one on streamed
  input and one on pairs of 32-bit halves, are proved to compute.
 */
module Blake2b {
  import opened Bits
  import opened Bytes
  import opened JsInt

  type Words = seq<u64>
  type Index = i: nat | i < 16

  // ---- RFC 7693 ----

  /** Section 2.6: the initialization vector. */
  function Iv(): (r: Words)
    ensures |r| == 8
  {
    [0x6a09e667f3bcc908, 0xbb67ae8584caa73b, 0x3c6ef372fe94f82b, 0xa54ff53a5f1d36f1,
     0x510e527fade682d1, 0x9b05688c2b3e6c1f, 0x1f83d9abfb41bd6b, 0x5be0cd19137e2179]
  }

  const FIRST_PRIMES: seq<nat> := [2, 3, 5, 7, 11, 13, 17, 19]

  predicate IsPrime(n: nat) {
    n >= 2 && forall d :: 2 <= d < n ==> n % d != 0
  }

  lemma FirstPrimes(n: nat)
    requires n <= 19
    ensures IsPrime(n) <==> n in FIRST_PRIMES
  {
    if n in [4, 6, 8, 10, 12, 14, 16, 18] {
      assert n % 2 == 0;
    } else if n in [9, 15] {
      assert n % 3 == 0;
    }
  }

  /** The whole part of the square root of a small number. */
  function Root(p: nat): (r: nat)
    requires p < 25
    ensures r * r <= p < (r + 1) * (r + 1)
  {
    if p == 0 then 0 else if p < 4 then 1 else if p < 9 then 2 else if p < 16 then 3 else 4
  }

  /** Word k is the first 64 bits of the fraction of the square root of the k-th prime. */
  lemma IvIsRoot(k: nat)
    requires k < 8
    ensures var p, x := FIRST_PRIMES[k], Root(FIRST_PRIMES[k]) * W64 + Iv()[k];
            x * x <= p * W64 * W64 < (x + 1) * (x + 1)
  {
    if k == 0 { } else if k == 1 { } else if k == 2 { } else if k == 3 { } else if k == 4 { } else if k == 5 { } else if k == 6 { } else { }
  }

  /** Section 2.7: the message schedule of round r. */
  function Sigma(r: nat): (s: seq<Index>)
    ensures |s| == 16
  {
    match r % 10
    case 0 => [0, 1, 2, 3, 4, 5, 6, 7, 8, 9, 10, 11, 12, 13, 14, 15]
    case 1 => [14, 10, 4, 8, 9, 15, 13, 6, 1, 12, 0, 2, 11, 7, 5, 3]
    case 2 => [11, 8, 12, 0, 5, 2, 15, 13, 10, 14, 3, 6, 7, 1, 9, 4]
    case 3 => [7, 9, 3, 1, 13, 12, 11, 14, 2, 6, 5, 10, 4, 0, 15, 8]
    case 4 => [9, 0, 5, 7, 2, 4, 10, 15, 14, 1, 11, 12, 6, 8, 3, 13]
    case 5 => [2, 12, 6, 10, 0, 11, 8, 3, 4, 13, 7, 5, 15, 14, 1, 9]
    case 6 => [12, 5, 1, 15, 14, 13, 4, 10, 0, 7, 6, 3, 9, 2, 8, 11]
    case 7 => [13, 11, 7, 14, 12, 1, 3, 9, 5, 0, 15, 4, 8, 6, 2, 10]
    case 8 => [6, 15, 14, 9, 11, 3, 0, 8, 12, 2, 13, 7, 1, 4, 10, 5]
    case _ => [10, 2, 8, 4, 7, 6, 1, 5, 15, 11, 9, 14, 3, 12, 13, 0]
  }

  /** Where each message word stands in the row. */
  function Place(r: nat): (s: seq<Index>)
    ensures |s| == 16
  {
    match r % 10
    case 0 => [0, 1, 2, 3, 4, 5, 6, 7, 8, 9, 10, 11, 12, 13, 14, 15]
    case 1 => [10, 8, 11, 15, 2, 14, 7, 13, 3, 4, 1, 12, 9, 6, 0, 5]
    case 2 => [3, 13, 5, 10, 15, 4, 11, 12, 1, 14, 8, 0, 2, 7, 9, 6]
    case 3 => [13, 3, 8, 2, 12, 10, 9, 0, 15, 1, 11, 6, 5, 4, 7, 14]
    case 4 => [1, 9, 4, 14, 5, 2, 12, 3, 13, 0, 6, 10, 11, 15, 8, 7]
    case 5 => [4, 14, 0, 7, 8, 11, 2, 10, 6, 15, 3, 5, 1, 9, 13, 12]
    case 6 => [8, 2, 13, 11, 6, 1, 10, 9, 14, 12, 7, 15, 0, 5, 4, 3]
    case 7 => [9, 5, 14, 6, 11, 8, 13, 2, 12, 7, 15, 1, 4, 0, 3, 10]
    case 8 => [6, 12, 9, 5, 13, 15, 0, 11, 7, 3, 14, 4, 8, 10, 2, 1]
    case _ => [15, 6, 1, 12, 3, 7, 5, 4, 2, 10, 0, 9, 13, 14, 11, 8]
  }

  predicate Inverse(s: seq<Index>, t: seq<Index>)
    requires |s| == |t| == 16
  {
    forall i :: 0 <= i < 16 ==> s[t[i]] == i && t[s[i]] == i
  }

  lemma Sixteen(i: nat)
    requires i < 16
    ensures i == 0 || i == 1 || i == 2 || i == 3 || i == 4 || i == 5 || i == 6 || i == 7
      || i == 8 || i == 9 || i == 10 || i == 11 || i == 12 || i == 13 || i == 14 || i == 15
  {
  }

  lemma PlaceInRow0(r: nat, i: nat)
    requires r % 10 == 0 && i < 16
    ensures Sigma(r)[Place(r)[i]] == i && Place(r)[Sigma(r)[i]] == i
  {
    Sixteen(i);
  }

  lemma PlaceInRow1(r: nat, i: nat)
    requires r % 10 == 1 && i < 16
    ensures Sigma(r)[Place(r)[i]] == i && Place(r)[Sigma(r)[i]] == i
  {
    Sixteen(i);
  }

  lemma PlaceInRow2(r: nat, i: nat)
    requires r % 10 == 2 && i < 16
    ensures Sigma(r)[Place(r)[i]] == i && Place(r)[Sigma(r)[i]] == i
  {
    Sixteen(i);
  }

  lemma PlaceInRow3(r: nat, i: nat)
    requires r % 10 == 3 && i < 16
    ensures Sigma(r)[Place(r)[i]] == i && Place(r)[Sigma(r)[i]] == i
  {
    Sixteen(i);
  }

  lemma PlaceInRow4(r: nat, i: nat)
    requires r % 10 == 4 && i < 16
    ensures Sigma(r)[Place(r)[i]] == i && Place(r)[Sigma(r)[i]] == i
  {
    Sixteen(i);
  }

  lemma PlaceInRow5(r: nat, i: nat)
    requires r % 10 == 5 && i < 16
    ensures Sigma(r)[Place(r)[i]] == i && Place(r)[Sigma(r)[i]] == i
  {
    Sixteen(i);
  }

  lemma PlaceInRow6(r: nat, i: nat)
    requires r % 10 == 6 && i < 16
    ensures Sigma(r)[Place(r)[i]] == i && Place(r)[Sigma(r)[i]] == i
  {
    Sixteen(i);
  }

  lemma PlaceInRow7(r: nat, i: nat)
    requires r % 10 == 7 && i < 16
    ensures Sigma(r)[Place(r)[i]] == i && Place(r)[Sigma(r)[i]] == i
  {
    Sixteen(i);
  }

  lemma PlaceInRow8(r: nat, i: nat)
    requires r % 10 == 8 && i < 16
    ensures Sigma(r)[Place(r)[i]] == i && Place(r)[Sigma(r)[i]] == i
  {
    Sixteen(i);
  }

  lemma PlaceInRow9(r: nat, i: nat)
    requires r % 10 == 9 && i < 16
    ensures Sigma(r)[Place(r)[i]] == i && Place(r)[Sigma(r)[i]] == i
  {
    Sixteen(i);
  }

  lemma SigmaPlace(r: nat)
    ensures Inverse(Sigma(r), Place(r))
  {
    hide Sigma, Place;
    forall i | 0 <= i < 16 ensures Sigma(r)[Place(r)[i]] == i && Place(r)[Sigma(r)[i]] == i {
      match r % 10 {
        case 0 => PlaceInRow0(r, i);
        case 1 => PlaceInRow1(r, i);
        case 2 => PlaceInRow2(r, i);
        case 3 => PlaceInRow3(r, i);
        case 4 => PlaceInRow4(r, i);
        case 5 => PlaceInRow5(r, i);
        case 6 => PlaceInRow6(r, i);
        case 7 => PlaceInRow7(r, i);
        case 8 => PlaceInRow8(r, i);
        case _ => PlaceInRow9(r, i);
      }
    }
  }

  /** Every round takes in every word of the message, each once. */
  lemma SigmaPermutes(r: nat)
    ensures forall i :: 0 <= i < 16 ==> i in Sigma(r)
    ensures forall i, j :: 0 <= i < j < 16 ==> Sigma(r)[i] != Sigma(r)[j]
  {
    SigmaPlace(r);
    hide Sigma, Place;
    var s, t := Sigma(r), Place(r);
    forall i | 0 <= i < 16 ensures i in s {
      assert s[t[i]] == i;
    }
    forall i, j | 0 <= i < j < 16 ensures s[i] != s[j] {
      assert t[s[i]] == i && t[s[j]] == j;
    }
  }

  /** Section 3.1: the mixing function on four words. */
  function Quarter(a: u64, b: u64, c: u64, d: u64, x: u64, y: u64): (u64, u64, u64, u64) {
    var a := (a + b + x) % W64;
    var d := RotateRight32(Xor64(d, a));
    var c := (c + d) % W64;
    var b := RotateRight24(Xor64(b, c));
    var a := (a + b + y) % W64;
    var d := RotateRight16(Xor64(d, a));
    var c := (c + d) % W64;
    var b := RotateRight63(Xor64(b, c));
    (a, b, c, d)
  }

  predicate FourOf16(a: nat, b: nat, c: nat, d: nat) {
    a < 16 && b < 16 && c < 16 && d < 16 && a != b && a != c && a != d && b != c && b != d && c != d
  }

  function Mix(v: Words, a: nat, b: nat, c: nat, d: nat, x: u64, y: u64): (r: Words)
    requires |v| == 16 && FourOf16(a, b, c, d)
    ensures |r| == 16
  {
    var q := Quarter(v[a], v[b], v[c], v[d], x, y);
    v[a := q.0][b := q.1][c := q.2][d := q.3]
  }

  /** Section 3.2: one round, columns then diagonals. */
  function Round(v: Words, m: Words, s: seq<Index>): (r: Words)
    requires |v| == 16 && |m| == 16 && |s| == 16
    ensures |r| == 16
  {
    var v := Mix(v, 0, 4, 8, 12, m[s[0]], m[s[1]]);
    var v := Mix(v, 1, 5, 9, 13, m[s[2]], m[s[3]]);
    var v := Mix(v, 2, 6, 10, 14, m[s[4]], m[s[5]]);
    var v := Mix(v, 3, 7, 11, 15, m[s[6]], m[s[7]]);
    var v := Mix(v, 0, 5, 10, 15, m[s[8]], m[s[9]]);
    var v := Mix(v, 1, 6, 11, 12, m[s[10]], m[s[11]]);
    var v := Mix(v, 2, 7, 8, 13, m[s[12]], m[s[13]]);
    Mix(v, 3, 4, 9, 14, m[s[14]], m[s[15]])
  }

  function Rounds(v: Words, m: Words, n: nat): (r: Words)
    requires |v| == 16 && |m| == 16
    ensures |r| == 16
  {
    if n == 0 then v else Round(Rounds(v, m, n - 1), m, Sigma(n - 1))
  }

  function Not64(x: u64): u64 {
    W64 - 1 - x
  }

  /** The local work vector: chaining value, constants, byte counter and final flag. */
  function Work(h: Words, t: nat, last: bool): (v: Words)
    requires |h| == 8
    ensures |v| == 16
  {
    var v := h + Iv();
    var v := v[12 := Xor64(v[12], t % W64)][13 := Xor64(v[13], t / W64 % W64)];
    if last then v[14 := Not64(v[14])] else v
  }

  function Feed(h: Words, v: Words): (r: Words)
    requires |h| == 8 && |v| == 16
    ensures |r| == 8
  {
    seq(8, i requires 0 <= i < 8 => Xor64(Xor64(h[i], v[i]), v[i + 8]))
  }

  /** Section 3.2: the compression function F. */
  function Compress(h: Words, m: Words, t: nat, last: bool): (r: Words)
    requires |h| == 8 && |m| == 16
    ensures |r| == 8
  {
    Feed(h, Rounds(Work(h, t, last), m, 12))
  }

  function Le64(bytes: seq<byte>): u64
    requires |bytes| == 8
  {
    LeNatBound(bytes);
    LeNat(bytes)
  }

  function BlockWords(block: seq<byte>): (m: Words)
    requires |block| == 128
    ensures |m| == 16
  {
    seq(16, i requires 0 <= i < 16 => Le64(block[8 * i..8 * i + 8]))
  }

  /** The chaining value for a digest length: parameter block of an unkeyed hash. */
  function Init(outLen: nat): (h: Words)
    requires 1 <= outLen <= 64
    ensures |h| == 8
  {
    ParameterSmall(outLen);
    Iv()[0 := Xor64(Iv()[0], Xor(0x01010000, outLen))]
  }

  lemma {:induction false} ParameterSmall(outLen: nat)
    requires outLen <= 64
    ensures Xor(0x01010000, outLen) < W32
  {
    XorWord(0x01010000, outLen);
  }

  /** The chaining value after k whole blocks of data. */
  function Absorb(h: Words, data: seq<byte>, k: nat): (r: Words)
    requires |h| == 8 && 128 * k <= |data|
    ensures |r| == 8
  {
    if k == 0 then h
    else Compress(Absorb(h, data, k - 1), BlockWords(data[128 * (k - 1)..128 * k]), 128 * k, false)
  }

  /** How many blocks come before the last one: the last block is empty only if the message is. */
  function WholeBlocks(n: nat): nat {
    if n == 0 then 0 else (n - 1) / 128
  }

  function ByteAt(h: Words, i: nat): byte
    requires |h| == 8 && i < 64
  {
    DigitIsByte(h[i / 8], Pow256(i % 8))
  }

  function DigitIsByte(x: nat, p: nat): byte
    requires p > 0
  {
    x / p % 256
  }

  /** The chaining value after the last, zero-padded block. */
  function FinalState(h: Words, data: seq<byte>): (r: Words)
    requires |h| == 8
    ensures |r| == 8
  {
    var k := WholeBlocks(|data|);
    var tail := data[128 * k..];
    Compress(Absorb(h, data, k), BlockWords(tail + Zeros(128 - |tail|)), |data|, true)
  }

  /** The first n bytes of a chaining value. */
  function Output(h: Words, n: nat): (r: seq<byte>)
    requires |h| == 8 && n <= 64
    ensures |r| == n
  {
    seq(n, i requires 0 <= i < n => ByteAt(h, i))
  }

  /** Section 3.3: the digest of a message. */
  function Digest(data: seq<byte>, outLen: nat): (r: seq<byte>)
    requires 1 <= outLen <= 64
    ensures |r| == outLen
  {
    Output(FinalState(Init(outLen), data), outLen)
  }
}
