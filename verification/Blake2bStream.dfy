/**
  web/blake2b.js: the streaming hash on BigInt words.
 */
module Blake2bStream {
  import opened Bits
  import opened Bytes
  import opened JsInt
  import opened Blake2b

  // ---- BigInt word operations ----

  function ADD64(a: u64, b: u64): u64 {
    (a + b) % W64
  }

  lemma AddThree(a: u64, b: u64, x: u64)
    ensures ADD64(ADD64(a, b), x) == (a + b + x) % W64
  {
  }

  /** ((x >> n) | (x << (64 - n))) & MASK64, with p == 2^n and q == 2^(64 - n). */
  function ROTR64(x: u64, p: nat, q: nat): u64
    requires p > 0
  {
    Or(Quotient(x, p), x * q) % W64
  }

  lemma {:induction false} RotrSplit(x: u64, p: nat, q: nat, k: nat)
    requires p * q == W64 && p > 0 && q == Pow2(k)
    ensures ROTR64(x, p, q) == x / p + x % p * q
  {
    hide Or;
    var high, low := Quotient(x, p), x % p;
    assert x == p * high + low;
    SmallQuotient(x, p, q);
    OrDisjoint(high, x, k);
    assert x * q == W64 * high + low * q by {
      assert x * q == (p * high) * q + low * q;
      assert (p * high) * q == (p * q) * high;
    }
    StrictProduct(q, low, p);
    assert high + low * q < W64 by {
      TightProduct(high, low, p, q);
    }
    DivModUnique(high + x * q, W64, high, high + low * q);
  }

  lemma SmallQuotient(x: u64, p: nat, q: nat)
    requires p * q == W64 && p > 0
    ensures Quotient(x, p) < q
  {
    var h := Quotient(x, p);
    if h >= q {
      ProductMonotone(p, q, h);
    }
  }

  lemma TightProduct(high: nat, low: nat, p: nat, q: nat)
    requires high < q && low < p
    ensures high + low * q < p * q
  {
    assert (p - 1 - low) * q >= 0;
    assert (p - 1 - low) * q == p * q - q - low * q;
  }

  lemma Rotations(x: u64)
    ensures ROTR64(x, 0x1_0000_0000, 0x1_0000_0000) == RotateRight32(x)
    ensures ROTR64(x, 0x100_0000, 0x100_0000_0000) == RotateRight24(x)
    ensures ROTR64(x, 0x1_0000, 0x1_0000_0000_0000) == RotateRight16(x)
    ensures ROTR64(x, 0x8000_0000_0000_0000, 2) == RotateRight63(x)
  {
    hide Or, ROTR64;
    WidePowers();
    RotrSplit(x, 0x1_0000_0000, 0x1_0000_0000, 32);
    RotrSplit(x, 0x100_0000, 0x100_0000_0000, 40);
    RotrSplit(x, 0x1_0000, 0x1_0000_0000_0000, 48);
    RotrSplit(x, 0x8000_0000_0000_0000, 2, 1);
  }

  lemma WidePowers()
    ensures Pow2(1) == 2 && Pow2(32) == 0x1_0000_0000 && Pow2(40) == 0x100_0000_0000 && Pow2(48) == 0x1_0000_0000_0000
  {
    Pow2Values();
    assert Pow2(40) == 0x100_0000_0000;
  }

  /** (hi << 32n) | lo */
  lemma {:induction false} OrJoin(lo: u32, hi: u32)
    ensures Or(W32 * hi, lo) == Join(lo, hi)
  {
    hide Or;
    Pow2Values();
    OrDisjoint(lo, hi, 32);
  }

  /** The source's G, in place. */
  method G(v: array<u64>, a: nat, b: nat, c: nat, d: nat, x: u64, y: u64)
    requires v.Length == 16 && FourOf16(a, b, c, d)
    modifies v
    ensures v[..] == Mix(old(v[..]), a, b, c, d, x, y)
  {
    hide Xor, ROTR64, RotateRight32, RotateRight24, RotateRight16, RotateRight63, Xor64;
    ghost var a0, b0, c0, d0 := v[a], v[b], v[c], v[d];
    HalfG(v, a, b, c, d, x, 0x1_0000_0000, 0x1_0000_0000, 0x100_0000, 0x100_0000_0000);
    Rotations(Xor64(d0, v[a]));
    Rotations(Xor64(b0, v[c]));
    ghost var b1, d1 := v[b], v[d];
    HalfG(v, a, b, c, d, y, 0x1_0000, 0x1_0000_0000_0000, 0x8000_0000_0000_0000, 2);
    Rotations(Xor64(d1, v[a]));
    Rotations(Xor64(b1, v[c]));
  }

  /** Four of the eight assignments; the two halves differ in the input word and the rotations. */
  method HalfG(v: array<u64>, a: nat, b: nat, c: nat, d: nat, x: u64, p: nat, q: nat, r: nat, s: nat)
    requires v.Length == 16 && FourOf16(a, b, c, d) && p > 0 && r > 0
    modifies v
    ensures v[a] == (old(v[a]) + old(v[b]) + x) % W64
    ensures v[d] == ROTR64(Xor64(old(v[d]), v[a]), p, q)
    ensures v[c] == (old(v[c]) + v[d]) % W64
    ensures v[b] == ROTR64(Xor64(old(v[b]), v[c]), r, s)
    ensures forall k :: 0 <= k < 16 && k != a && k != b && k != c && k != d ==> v[k] == old(v[k])
  {
    hide Xor, ROTR64, Xor64;
    AddThree(v[a], v[b], x);
    v[a] := ADD64(ADD64(v[a], v[b]), x);
    v[d] := ROTR64(Xor64(v[d], v[a]), p, q);
    v[c] := ADD64(v[c], v[d]);
    v[b] := ROTR64(Xor64(v[b], v[c]), r, s);
  }

  /** The source's LOAD64: two shift-and-or loops over the halves. */
  method LOAD64(buf: array<byte>, offset: nat) returns (w: u64)
    requires offset + 8 <= buf.Length
    ensures w == Le64(buf[offset..offset + 8])
  {
    hide Or, LeNat;
    ghost var s := buf[..];
    var lo: nat := 0;
    var i := 7;
    NoBytes(s, offset + 8);
    while i >= 4
      invariant 3 <= i <= 7
      invariant lo == LeNat(s[offset + i + 1..offset + 8])
    {
      ShiftInNext(s, offset + i, offset + 8);
      lo := Or(lo * 256, buf[offset + i]);
      i := i - 1;
    }
    var hi: nat := 0;
    NoBytes(s, offset + 4);
    while i >= 0
      invariant -1 <= i <= 3
      invariant hi == LeNat(s[offset + i + 1..offset + 4])
    {
      ShiftInNext(s, offset + i, offset + 4);
      hi := Or(hi * 256, buf[offset + i]);
      i := i - 1;
    }
    HalvesJoined(s, offset);
    assert s[offset..offset + 8] == buf[offset..offset + 8];
    w := Or(lo * W32, hi);
  }

  lemma {:induction false} NoBytes(s: seq<byte>, end: nat)
    requires end <= |s|
    ensures LeNat(s[end..end]) == 0
  {
  }

  lemma ShiftInNext(s: seq<byte>, i: nat, end: nat)
    requires i < end <= |s|
    ensures Or(LeNat(s[i + 1..end]) * 256, s[i]) == LeNat(s[i..end])
  {
    hide Or, LeNat;
    ShiftIn(s[i + 1..end], s[i]);
    assert [s[i]] + s[i + 1..end] == s[i..end];
  }

  lemma HalvesJoined(s: seq<byte>, offset: nat)
    requires offset + 8 <= |s|
    ensures var hi, lo := LeNat(s[offset..offset + 4]), LeNat(s[offset + 4..offset + 8]);
            Or(lo * W32, hi) == Le64(s[offset..offset + 8])
  {
    hide Or, LeNat;
    var low, high := s[offset..offset + 4], s[offset + 4..offset + 8];
    LeNatBound(low);
    LeNatBound(high);
    OrJoin(LeNat(low), LeNat(high));
    LeNatConcat(low, high);
    assert low + high == s[offset..offset + 8];
  }

  /** (acc << 8n) | byte prepends a byte to a little-endian number. */
  lemma {:induction false} ShiftIn(bytes: seq<byte>, b: byte)
    ensures Or(LeNat(bytes) * 256, b) == LeNat([b] + bytes)
  {
    hide Or;
    Pow2Values();
    OrDisjoint(b, LeNat(bytes), 8);
    assert ([b] + bytes)[1..] == bytes;
  }

  /** The constants of this program: pairs of halves, low half first, and a row of message indices for each round. */
  const BLAKE2B_IV: seq<u32> := [
    0xf3bcc908, 0x6a09e667, 0x84caa73b, 0xbb67ae85, 0xfe94f82b, 0x3c6ef372, 0x5f1d36f1, 0xa54ff53a,
    0xade682d1, 0x510e527f, 0x2b3e6c1f, 0x9b05688c, 0xfb41bd6b, 0x1f83d9ab, 0x137e2179, 0x5be0cd19]

  const SIGMA: seq<seq<Index>> := [
    [0, 1, 2, 3, 4, 5, 6, 7, 8, 9, 10, 11, 12, 13, 14, 15],
    [14, 10, 4, 8, 9, 15, 13, 6, 1, 12, 0, 2, 11, 7, 5, 3],
    [11, 8, 12, 0, 5, 2, 15, 13, 10, 14, 3, 6, 7, 1, 9, 4],
    [7, 9, 3, 1, 13, 12, 11, 14, 2, 6, 5, 10, 4, 0, 15, 8],
    [9, 0, 5, 7, 2, 4, 10, 15, 14, 1, 11, 12, 6, 8, 3, 13],
    [2, 12, 6, 10, 0, 11, 8, 3, 4, 13, 7, 5, 15, 14, 1, 9],
    [12, 5, 1, 15, 14, 13, 4, 10, 0, 7, 6, 3, 9, 2, 8, 11],
    [13, 11, 7, 14, 12, 1, 3, 9, 5, 0, 15, 4, 8, 6, 2, 10],
    [6, 15, 14, 9, 11, 3, 0, 8, 12, 2, 13, 7, 1, 4, 10, 5],
    [10, 2, 8, 4, 7, 6, 1, 5, 15, 11, 9, 14, 3, 12, 13, 0],
    [0, 1, 2, 3, 4, 5, 6, 7, 8, 9, 10, 11, 12, 13, 14, 15],
    [14, 10, 4, 8, 9, 15, 13, 6, 1, 12, 0, 2, 11, 7, 5, 3]]

  lemma IvHalves(i: nat)
    requires i < 8
    ensures |BLAKE2B_IV| == 16 && Join(BLAKE2B_IV[2 * i], BLAKE2B_IV[2 * i + 1]) == Iv()[i]
  {
    if i == 0 { } else if i == 1 { } else if i == 2 { } else if i == 3 { } else if i == 4 { } else if i == 5 { } else if i == 6 { } else { }
  }

  lemma SigmaRows(r: nat)
    requires r < 12
    ensures |SIGMA| == 12 && |SIGMA[r]| == 16 && SIGMA[r] == Sigma(r)
  {
  }

  /** One round in place. */
  method DoRound(v: array<u64>, m: array<u64>, r: nat)
    requires v.Length == 16 && m.Length == 16 && v != m && r < 12
    modifies v
    ensures v[..] == Round(old(v[..]), m[..], Sigma(r))
  {
    hide Mix, Sigma;
    SigmaRows(r);
    var s := SIGMA[r];
    G(v, 0, 4, 8, 12, m[s[0]], m[s[1]]);
    G(v, 1, 5, 9, 13, m[s[2]], m[s[3]]);
    G(v, 2, 6, 10, 14, m[s[4]], m[s[5]]);
    G(v, 3, 7, 11, 15, m[s[6]], m[s[7]]);
    G(v, 0, 5, 10, 15, m[s[8]], m[s[9]]);
    G(v, 1, 6, 11, 12, m[s[10]], m[s[11]]);
    G(v, 2, 7, 8, 13, m[s[12]], m[s[13]]);
    G(v, 3, 4, 9, 14, m[s[14]], m[s[15]]);
  }

  /** The hashing context: chaining value h, buffer b with c bytes in it, byte counter t. */
  class Context {
    const h: array<u64>
    const b: array<byte>
    var c: nat
    var t: nat
    const outlen: nat

    /** The context has taken in exactly data. */
    ghost predicate Holds(data: seq<byte>)
      reads this, h, b
    {
      && h.Length == 8 && b.Length == 128 && 1 <= outlen <= 64
      && var k := WholeBlocks(|data|);
      && c == |data| - 128 * k && t == 128 * k
      && h[..] == Absorb(Init(outlen), data, k)
      && b[..c] == data[128 * k..]
    }

    /** blake2bInit */
    constructor (outlen: nat)
      requires 1 <= outlen <= 64
      ensures Holds([]) && this.outlen == outlen && fresh(h) && fresh(b)
    {
      this.outlen := outlen;
      h := new u64[8](_ => 0);
      b := new byte[128](_ => 0);
      c, t := 0, 0;
      new;
      CopyIv(h, 0);
      ParameterSmall(outlen);
      h[0] := Xor64(h[0], Xor(0x01010000, outlen));
      assert h[..] == Init(outlen);
      assert b[..0] == [][0..];
    }

    static method CopyIv(a: array<u64>, start: nat)
      requires start + 8 <= a.Length
      modifies a
      ensures a[start..start + 8] == Iv()
      ensures forall k :: 0 <= k < a.Length && !(start <= k < start + 8) ==> a[k] == old(a[k])
    {
      for i := 0 to 8
        invariant forall k :: 0 <= k < i ==> a[start + k] == Iv()[k]
        invariant forall k :: 0 <= k < a.Length && !(start <= k < start + i) ==> a[k] == old(a[k])
      {
        a[start + i] := LoadIv(i);
      }
    }

    /** (IV[2i + 1] << 32n) | IV[2i] */
    static method LoadIv(i: nat) returns (w: u64)
      requires i < 8
      ensures w == Iv()[i]
    {
      IvHalves(i);
      OrJoin(BLAKE2B_IV[2 * i], BLAKE2B_IV[2 * i + 1]);
      w := Or(BLAKE2B_IV[2 * i + 1] * W32, BLAKE2B_IV[2 * i]);
    }

    /** compress */
    method DoCompress(last: bool)
      requires h.Length == 8 && b.Length == 128
      modifies h
      ensures h[..] == Compress(old(h[..]), BlockWords(b[..]), t, last)
    {
      hide Rounds, Work, Feed, BlockWords;
      var v := new u64[16](_ => 0);
      var m := new u64[16](_ => 0);
      SetUp(v, last);
      LoadBlock(m);
      DoRounds(v, m);
      FeedForward(v);
    }

    method SetUp(v: array<u64>, last: bool)
      requires h.Length == 8 && v.Length == 16 && v != h
      modifies v
      ensures v[..] == Work(h[..], t, last)
    {
      hide Xor64;
      for i := 0 to 8
        invariant forall k :: 0 <= k < i ==> v[k] == h[k]
      {
        v[i] := h[i];
      }
      CopyIv(v, 8);
      assert v[..] == h[..] + Iv() by {
        assert v[..] == v[..8] + v[8..16];
      }
      v[12] := Xor64(v[12], t % W64);
      v[13] := Xor64(v[13], t / W64 % W64);
      if last {
        v[14] := Not64(v[14]);
      }
    }

    method FeedForward(v: array<u64>)
      requires h.Length == 8 && v.Length == 16 && v != h
      modifies h
      ensures h[..] == Feed(old(h[..]), v[..])
    {
      hide Xor64;
      for i := 0 to 8
        invariant forall k :: 0 <= k < i ==> h[k] == Xor64(Xor64(old(h[k]), v[k]), v[k + 8])
        invariant forall k :: i <= k < 8 ==> h[k] == old(h[k])
      {
        h[i] := Xor64(Xor64(h[i], v[i]), v[i + 8]);
      }
    }

    method LoadBlock(m: array<u64>)
      requires b.Length == 128 && m.Length == 16
      modifies m
      ensures m[..] == BlockWords(b[..])
    {
      for i := 0 to 16
        invariant forall k :: 0 <= k < i ==> m[k] == BlockWords(b[..])[k]
      {
        m[i] := LOAD64(b, i * 8);
        assert b[..][8 * i..8 * i + 8] == b[i * 8..i * 8 + 8];
      }
    }

    static method DoRounds(v: array<u64>, m: array<u64>)
      requires v.Length == 16 && m.Length == 16 && v != m
      modifies v
      ensures v[..] == Rounds(old(v[..]), m[..], 12)
    {
      hide Round, Sigma;
      for i := 0 to 12
        invariant v[..] == Rounds(old(v[..]), m[..], i)
      {
        DoRound(v, m, i);
      }
    }

    /** blake2bUpdate: after it, the context has taken in the old data followed by the input. */
    method Update(input: seq<byte>, ghost data: seq<byte>)
      requires Holds(data)
      modifies this, h, b
      ensures Holds(data + input)
    {
      hide Holds;
      assert data + input[..0] == data;
      for i := 0 to |input|
        invariant Holds(data + input[..i])
      {
        Take(input[i], data + input[..i]);
        assert data + input[..i + 1] == data + input[..i] + [input[i]];
      }
      assert input[..|input|] == input;
    }

    /** The body of the loop: a full buffer is compressed before the next byte goes in. */
    method Take(x: byte, ghost seen: seq<byte>)
      requires Holds(seen)
      modifies this, h, b
      ensures Holds(seen + [x])
    {
      hide Absorb, Init, Compress;
      if c == 128 {
        t := t + 128;
        assert b[..] == b[..128];
        DoCompress(false);
        c := 0;
        AbsorbNext(seen, outlen);
      }
      b[c] := x;
      c := c + 1;
      OneMore(seen, x, outlen);
    }

    /** blake2bFinal */
    method Final(ghost data: seq<byte>) returns (out: array<byte>)
      requires Holds(data)
      modifies this, h, b
      ensures out[..] == Digest(data, outlen)
      ensures fresh(out)
    {
      hide Absorb, Init, Compress, ByteAt, BlockWords;
      ghost var k := WholeBlocks(|data|);
      ghost var tail := data[128 * k..];
      t := t + c;
      while c < 128
        invariant |tail| <= c <= 128 && t == |data|
        invariant b[..c] == tail + Zeros(c - |tail|)
        invariant h[..] == Absorb(Init(outlen), data, k)
      {
        b[c] := 0;
        c := c + 1;
      }
      assert b[..] == tail + Zeros(128 - |tail|);
      DoCompress(true);
      ghost var state := FinalState(Init(outlen), data);
      out := new byte[outlen](_ => 0);
      for i := 0 to outlen
        invariant h[..] == state
        invariant forall j :: 0 <= j < i ==> out[j] == ByteAt(state, j)
      {
        out[i] := ByteAt(h[..], i);
      }
      assert out[..] == Digest(data, outlen);
    }
  }

  /** A full buffer is the next whole block. */
  lemma {:induction false} AbsorbNext(seen: seq<byte>, outLen: nat)
    requires 1 <= outLen <= 64 && |seen| > 0 && |seen| % 128 == 0
    ensures var k := WholeBlocks(|seen|);
      |seen| == 128 * (k + 1) &&
      Absorb(Init(outLen), seen, k + 1) == Compress(Absorb(Init(outLen), seen, k), BlockWords(seen[128 * k..]), 128 * (k + 1), false)
  {
    hide Compress, Init, BlockWords;
    var k := WholeBlocks(|seen|);
    assert |seen| == 128 * (k + 1);
    assert seen[128 * k..128 * (k + 1)] == seen[128 * k..];
  }

  lemma {:induction false} OneMore(seen: seq<byte>, x: byte, outLen: nat)
    requires 1 <= outLen <= 64
    ensures WholeBlocks(|seen| + 1) == |seen| / 128
    ensures 128 * (|seen| / 128) <= |seen|
    ensures Absorb(Init(outLen), seen + [x], |seen| / 128) == Absorb(Init(outLen), seen, |seen| / 128)
  {
    AbsorbPrefix(Init(outLen), seen, [x], |seen| / 128);
  }

  /** Later bytes do not disturb blocks already absorbed. */
  lemma {:induction false} AbsorbPrefix(h: Words, data: seq<byte>, more: seq<byte>, k: nat)
    requires |h| == 8 && 128 * k <= |data|
    ensures Absorb(h, data + more, k) == Absorb(h, data, k)
  {
    hide Compress;
    if k > 0 {
      AbsorbPrefix(h, data, more, k - 1);
      assert (data + more)[128 * (k - 1)..128 * k] == data[128 * (k - 1)..128 * k];
    }
  }

  /** blake2b256Multi: hashing several inputs one after another is hashing their concatenation. */
  method Blake2b256Multi(inputs: seq<seq<byte>>) returns (out: array<byte>)
    ensures out[..] == Digest(Flatten(inputs), 32)
    ensures fresh(out)
  {
    hide Context.Holds, Digest;
    var ctx := new Context(32);
    ghost var data := [];
    for i := 0 to |inputs|
      invariant ctx.Holds(data) && data == Flatten(inputs[..i]) && ctx.outlen == 32
      invariant fresh(ctx) && fresh(ctx.h) && fresh(ctx.b)
    {
      ctx.Update(inputs[i], data);
      data := data + inputs[i];
      assert inputs[..i + 1][..i] == inputs[..i];
    }
    assert inputs[..|inputs|] == inputs;
    out := ctx.Final(data);
  }
}
