/**
  Argon2's compression function G (RFC 9106, sections 3.5 and 3.6) on 64-bit words, and the
  program of web/kdbx-read.js that computes it on 32-bit halves with 16-bit limbs.
 */
module Argon2Compress {
  import opened Bits
  import opened JsInt
  import opened Blake2b
  import opened Blake2bPairs

  // ---- RFC 9106, section 3.6 ----

  /** a + b + 2 · lo(a) · lo(b) modulo 2^64 */
  function BlaMka(a: u64, b: u64): u64 {
    (a + b + 2 * ((a % W32) * (b % W32))) % W64
  }

  /** GB on four words. */
  function QuarterB(a: u64, b: u64, c: u64, d: u64): (u64, u64, u64, u64) {
    var a := BlaMka(a, b);
    var d := RotateRight32(Xor64(d, a));
    var c := BlaMka(c, d);
    var b := RotateRight24(Xor64(b, c));
    var a := BlaMka(a, b);
    var d := RotateRight16(Xor64(d, a));
    var c := BlaMka(c, d);
    var b := RotateRight63(Xor64(b, c));
    (a, b, c, d)
  }

  function MixB(v: Words, a: nat, b: nat, c: nat, d: nat): (r: Words)
    requires |v| == 16 && FourOf16(a, b, c, d)
    ensures |r| == 16
  {
    var q := QuarterB(v[a], v[b], v[c], v[d]);
    v[a := q.0][b := q.1][c := q.2][d := q.3]
  }

  /** The permutation P on sixteen words. */
  function P(v: Words): (r: Words)
    requires |v| == 16
    ensures |r| == 16
  {
    var v := MixB(v, 0, 4, 8, 12);
    var v := MixB(v, 1, 5, 9, 13);
    var v := MixB(v, 2, 6, 10, 14);
    var v := MixB(v, 3, 7, 11, 15);
    var v := MixB(v, 0, 5, 10, 15);
    var v := MixB(v, 1, 6, 11, 12);
    var v := MixB(v, 2, 7, 8, 13);
    MixB(v, 3, 4, 9, 14)
  }

  // ---- Section 3.5: a block is an 8 by 8 matrix of 16-byte registers ----

  /** Word k of row r, and of column c, as an index into the 128 words. */
  function RowIndex(r: nat, k: nat): nat {
    16 * r + k
  }

  function ColumnIndex(c: nat, k: nat): nat {
    2 * c + 16 * (k / 2) + k % 2
  }

  /** The column of a word, and its place in the column. */
  function ColumnOf(w: nat): nat {
    w % 16 / 2
  }

  function PlaceOf(w: nat): nat {
    w / 16 * 2 + w % 2
  }

  /** The rows partition the 128 words... */
  lemma RowPartition(r: nat, k: nat, w: nat)
    requires r < 8 && k < 16 && w < 128
    ensures RowIndex(r, k) == w <==> r == w / 16 && k == w % 16
    ensures RowIndex(r, k) < 128
  {
  }

  lemma WordParts(w: nat)
    ensures w == 16 * (w / 16) + 2 * (w % 16 / 2) + w % 2 && w % 16 / 2 < 8 && w == 2 * (w / 2) + w % 2
  {
    var q, r := w / 16, w % 16;
    assert w == 16 * q + r && r == 2 * (r / 2) + r % 2;
    DivModUnique(w, 2, 8 * q + r / 2, r % 2);
  }

  /** ... and so do the columns. */
  lemma ColumnPartition(c: nat, k: nat, w: nat)
    requires c < 8 && k < 16 && w < 128
    ensures ColumnIndex(c, k) == w <==> c == ColumnOf(w) && k == PlaceOf(w)
    ensures ColumnIndex(c, k) < 128 && ColumnOf(w) < 8 && PlaceOf(w) < 16
  {
    WordParts(w);
    WordParts(k);
    hide ColumnOf, PlaceOf;
    ColumnSplit(w / 16, w % 16 / 2, w % 2, w);
    ColumnSplit(k / 2, c, k % 2, ColumnIndex(c, k));
  }

  lemma ColumnSplit(i: nat, c: nat, j: nat, w: nat)
    requires c < 8 && j < 2 && w == 16 * i + 2 * c + j
    ensures ColumnOf(w) == c && PlaceOf(w) == 2 * i + j && ColumnIndex(c, 2 * i + j) == w
  {
    DivModUnique(w, 16, i, 2 * c + j);
    DivModUnique(2 * c + j, 2, c, j);
    DivModUnique(2 * i + j, 2, i, j);
    DivModUnique(w, 2, 8 * i + c, j);
  }

  function Row(q: Words, r: nat): (s: Words)
    requires |q| == 128 && r < 8
    ensures |s| == 16
  {
    seq(16, k requires 0 <= k < 16 => q[RowIndex(r, k)])
  }

  function Column(q: Words, c: nat): (s: Words)
    requires |q| == 128 && c < 8
    ensures |s| == 16
  {
    seq(16, k requires 0 <= k < 16 => q[ColumnIndex(c, k)])
  }

  /** P on every row at once. */
  function PermuteRows(q: Words): (z: Words)
    requires |q| == 128
    ensures |z| == 128
  {
    seq(128, w requires 0 <= w < 128 => P(Row(q, w / 16))[w % 16])
  }

  /** P on every column at once. */
  function PermuteColumns(q: Words): (z: Words)
    requires |q| == 128
    ensures |z| == 128
  {
    seq(128, w requires 0 <= w < 128 => PermutedWord(q, w))
  }

  function PermutedWord(q: Words, w: nat): u64
    requires |q| == 128 && w < 128
  {
    hide P, Column, ColumnOf, PlaceOf;
    ColumnPartition(0, 0, w);
    P(Column(q, ColumnOf(w)))[PlaceOf(w)]
  }

  function XorBlocks(x: Words, y: Words): (z: Words)
    requires |x| == |y|
    ensures |z| == |x|
  {
    seq(|x|, w requires 0 <= w < |x| => Xor64(x[w], y[w]))
  }

  /** The compression function G. */
  function G(x: Words, y: Words): (z: Words)
    requires |x| == 128 && |y| == 128
    ensures |z| == 128
  {
    var r := XorBlocks(x, y);
    XorBlocks(PermuteColumns(PermuteRows(r)), r)
  }

  // ---- fBlaMka ----

  /** The 32 by 32 bit product from 16-bit limbs; every intermediate value is below 2^53. */
  lemma Limbs(a: u32, b: u32)
    ensures var x0, x1, y0, y1 := a % 0x1_0000, a / 0x1_0000, b % 0x1_0000, b / 0x1_0000;
      var mid := x1 * y0 + x0 * y1;
      var tl := x0 * y0 + mid % 0x1_0000 * 0x1_0000;
      var th := x1 * y1 + mid / 0x1_0000 + tl / W32;
      0 <= mid < 0x20_0000_0000_0000 && 0 <= tl < 0x20_0000_0000_0000 && th < W32 && a * b == tl % W32 + W32 * th
  {
    var x0, x1, y0, y1 := a % 0x1_0000, a / 0x1_0000, b % 0x1_0000, b / 0x1_0000;
    LimbProduct(x1, y0);
    LimbProduct(x0, y1);
    LimbProduct(x0, y0);
    LimbProduct(x1, y1);
    var mid := x1 * y0 + x0 * y1;
    var tl := x0 * y0 + mid % 0x1_0000 * 0x1_0000;
    var th := x1 * y1 + mid / 0x1_0000 + tl / W32;
    Expand(a, b, x0, x1, y0, y1);
    assert a * b == tl % W32 + W32 * th;
    WordProduct(a, b);
  }

  lemma LimbProduct(x: nat, y: nat)
    requires x < 0x1_0000 && y < 0x1_0000
    ensures 0 <= x * y <= 0xfffe_0001
  {
    ProductBound(x, y, 0xffff);
  }

  lemma ProductBound(x: nat, y: nat, m: nat)
    requires x <= m && y <= m
    ensures 0 <= x * y <= m * m
  {
    ProductMonotone(x, y, m);
    ProductMonotone(m, x, m);
    assert x * y <= x * m && x * m == m * x;
  }

  lemma Expand(a: nat, b: nat, x0: nat, x1: nat, y0: nat, y1: nat)
    requires a == x0 + 0x1_0000 * x1 && b == y0 + 0x1_0000 * y1
    ensures a * b == x0 * y0 + 0x1_0000 * (x1 * y0 + x0 * y1) + W32 * (x1 * y1)
  {
    assert a * b == x0 * b + 0x1_0000 * (x1 * b);
    assert x0 * b == x0 * y0 + 0x1_0000 * (x0 * y1);
    assert x1 * b == x1 * y0 + 0x1_0000 * (x1 * y1);
  }

  lemma WordProduct(a: u32, b: u32)
    ensures 0 <= a * b < W64 - W32
  {
    ProductBound(a, b, W32 - 1);
  }

  lemma AddModulo(s: nat, t: nat)
    ensures (s + t % W64) % W64 == (s + t) % W64
  {
    var k, u := t / W64, s + t % W64;
    DivModUnique(s + t, W64, u / W64 + k, u % W64);
  }

  /** The source's 16-bit limb product. */
  method LimbMultiply(al: u32, bl: u32) returns (pl: u32, th: u32)
    ensures al * bl == pl + W32 * th
  {
    var x0: int, x1: int, y0: int, y1: int := al % 0x1_0000, al / 0x1_0000, bl % 0x1_0000, bl / 0x1_0000;
    var mid := x1 * y0 + x0 * y1;
    var tl := x0 * y0 + mid % 65536 * 65536;
    Limbs(al, bl);
    th := ToUint32(x1 * y1 + mid / 65536 + tl / 0x1_0000_0000);
    pl := ToUint32(tl);
  }

  /** The source's fBlaMka; fmLo and fmHi are its results. */
  method FBlaMka(al: u32, ah: u32, bl: u32, bh: u32) returns (fmLo: u32, fmHi: u32)
    ensures Join(fmLo, fmHi) == BlaMka(Join(al, ah), Join(bl, bh))
  {
    hide Or, BitOr, ShiftLeft, ShiftRight, ToUint32, BlaMka, Join;
    var pl, th := LimbMultiply(al, bl);
    AlreadyUnsigned(pl);
    AlreadyUnsigned(th);
    ShiftLeftUnsigned(pl, 2, 0x8000_0000);
    Funnel1(th, pl);
    var dl := ToUint32(ShiftLeft(pl, 2));
    var dh := ToUint32(BitOr(ShiftLeft(th, 2), ShiftRight(pl, 0x8000_0000)));
    Twice(pl, th, dl, dh);
    AddPairs(al, ah, bl, bh, dl, dh);
    var lo: int := al as int + bl + dl;
    fmLo := ToUint32(lo);
    fmHi := ToUint32(ah as int + bh + dh + lo / 0x1_0000_0000);
    JoinIs(pl, th);
    SumOfDouble(al, ah, bl, bh, al * bl, Join(dl, dh));
  }

  lemma JoinIs(low: u32, high: u32)
    ensures Join(low, high) == low + W32 * high
  {
  }

  lemma Twice(pl: u32, th: u32, dl: u32, dh: u32)
    requires dl == 2 * (pl % 0x8000_0000) && dh == pl / 0x8000_0000 + 2 * (th % 0x8000_0000)
    ensures Join(dl, dh) == 2 * Join(pl, th) % W64
  {
    DivModUnique(2 * Join(pl, th), W64, th / 0x8000_0000, Join(dl, dh));
  }

  lemma LowHalf(low: u32, high: u32)
    ensures Join(low, high) % W32 == low
  {
    DivModUnique(Join(low, high), W32, high, low);
  }

  lemma SumOfDouble(al: u32, ah: u32, bl: u32, bh: u32, product: nat, d: u64)
    requires product == al * bl && d == 2 * product % W64
    ensures (Join(al, ah) + Join(bl, bh) + d) % W64 == BlaMka(Join(al, ah), Join(bl, bh))
  {
    hide Join;
    LowHalf(al, ah);
    LowHalf(bl, bh);
    AddModulo(Join(al, ah) + Join(bl, bh), 2 * product);
  }

  /** The arithmetic of bmG. */
  method QuarterHalves(al0: u32, ah0: u32, bl0: u32, bh0: u32, cl0: u32, ch0: u32, dl0: u32, dh0: u32)
    returns (al: u32, ah: u32, bl: u32, bh: u32, cl: u32, ch: u32, dl: u32, dh: u32)
    ensures QuarterB(Join(al0, ah0), Join(bl0, bh0), Join(cl0, ch0), Join(dl0, dh0))
         == (Join(al, ah), Join(bl, bh), Join(cl, ch), Join(dl, dh))
  {
    hide BlaMka, Xor64, BitXor, BitOr, ShiftLeft, ShiftRight, ToUint32, Join, RotateRight32, RotateRight24, RotateRight16, RotateRight63;
    al, ah, bl, bh := al0, ah0, bl0, bh0;
    cl, ch, dl, dh := cl0, ch0, dl0, dh0;
    al, ah := FBlaMka(al, ah, bl, bh);
    XorRotate32(dl, dh, al, ah);
    var xl, xh := BitXor(dl, al), BitXor(dh, ah);
    dl, dh := ToUint32(xh), ToUint32(xl);
    cl, ch := FBlaMka(cl, ch, dl, dh);
    XorRotate24(bl, bh, cl, ch);
    xl, xh := BitXor(bl, cl), BitXor(bh, ch);
    bl := ToUint32(BitOr(ShiftRight(xl, 0x100_0000), ShiftLeft(xh, 0x100)));
    bh := ToUint32(BitOr(ShiftRight(xh, 0x100_0000), ShiftLeft(xl, 0x100)));
    al, ah := FBlaMka(al, ah, bl, bh);
    XorRotate16(dl, dh, al, ah);
    xl, xh := BitXor(dl, al), BitXor(dh, ah);
    dl := ToUint32(BitOr(ShiftRight(xl, 0x1_0000), ShiftLeft(xh, 0x1_0000)));
    dh := ToUint32(BitOr(ShiftRight(xh, 0x1_0000), ShiftLeft(xl, 0x1_0000)));
    cl, ch := FBlaMka(cl, ch, dl, dh);
    XorRotate63(bl, bh, cl, ch);
    xl, xh := BitXor(bl, cl), BitXor(bh, ch);
    bl := ToUint32(BitOr(ShiftLeft(xl, 2), ShiftRight(xh, 0x8000_0000)));
    bh := ToUint32(BitOr(ShiftLeft(xh, 2), ShiftRight(xl, 0x8000_0000)));
  }

  /** The source's bmG, on the scratch array S in place. */
  method BmG(S: array<u32>, a: nat, b: nat, c: nat, d: nat)
    requires S.Length == 32 && FourOf16(a, b, c, d)
    modifies S
    ensures Joined(S[..]) == MixB(old(Joined(S[..])), a, b, c, d)
  {
    hide QuarterB, Join;
    var al, ah, bl, bh := S[2 * a], S[2 * a + 1], S[2 * b], S[2 * b + 1];
    var cl, ch, dl, dh := S[2 * c], S[2 * c + 1], S[2 * d], S[2 * d + 1];
    al, ah, bl, bh, cl, ch, dl, dh := QuarterHalves(al, ah, bl, bh, cl, ch, dl, dh);
    WritePair(S, a, al, ah);
    WritePair(S, b, bl, bh);
    WritePair(S, c, cl, ch);
    WritePair(S, d, dl, dh);
  }

  /** The words of v that start at the given half-word offsets. */
  function Gather(v: Words, offs: seq<nat>): (s: Words)
    requires forall k :: 0 <= k < |offs| ==> offs[k] / 2 < |v|
    ensures |s| == |offs|
  {
    seq(|offs|, k requires 0 <= k < |offs| => v[offs[k] / 2])
  }

  /** Sixteen different even offsets. */
  ghost predicate GoodOffsets(offs: seq<nat>, length: nat) {
    && |offs| == 16
    && (forall k :: 0 <= k < 16 ==> offs[k] % 2 == 0 && offs[k] + 1 < length)
    && (forall j, k :: 0 <= j < k < 16 ==> offs[j] != offs[k])
  }

  /** The source's pApply: gather into S, permute, scatter back. */
  method PApply(v: array<u32>, offs: seq<nat>, S: array<u32>)
    requires v.Length % 2 == 0 && S.Length == 32 && v != S && GoodOffsets(offs, v.Length)
    modifies v, S
    ensures forall k :: 0 <= k < 16 ==> Joined(v[..])[offs[k] / 2] == P(Gather(old(Joined(v[..])), offs))[k]
    ensures forall w :: 0 <= w < v.Length / 2 && 2 * w !in offs ==> Joined(v[..])[w] == old(Joined(v[..])[w])
  {
    hide P, Joined;
    LoadScratch(v, offs, S);
    PermuteScratch(S);
    StoreScratch(v, offs, S);
  }

  method LoadScratch(v: array<u32>, offs: seq<nat>, S: array<u32>)
    requires v.Length % 2 == 0 && S.Length == 32 && v != S && GoodOffsets(offs, v.Length)
    modifies S
    ensures Joined(S[..]) == Gather(Joined(v[..]), offs)
  {
    hide Join;
    for k := 0 to 16
      invariant forall j :: 0 <= j < k ==> S[2 * j] == v[offs[j]] && S[2 * j + 1] == v[offs[j] + 1]
    {
      S[2 * k], S[2 * k + 1] := v[offs[k]], v[offs[k] + 1];
    }
  }

  method StoreScratch(v: array<u32>, offs: seq<nat>, S: array<u32>)
    requires v.Length % 2 == 0 && S.Length == 32 && v != S && GoodOffsets(offs, v.Length)
    modifies v
    ensures forall k :: 0 <= k < 16 ==> Joined(v[..])[offs[k] / 2] == Joined(S[..])[k]
    ensures forall w :: 0 <= w < v.Length / 2 && 2 * w !in offs ==> Joined(v[..])[w] == old(Joined(v[..])[w])
  {
    hide Join, Joined;
    ghost var z := Joined(S[..]);
    for k := 0 to 16
      invariant forall j :: 0 <= j < k ==> Joined(v[..])[offs[j] / 2] == z[j]
      invariant forall w :: 0 <= w < v.Length / 2 && 2 * w !in offs[..k] ==> Joined(v[..])[w] == old(Joined(v[..])[w])
    {
      JoinedAt(S[..], k);
      OtherWords(offs, k, v.Length);
      Store(v, offs[k] / 2, S[2 * k], S[2 * k + 1]);
    }
    assert offs[..16] == offs;
  }

  method Store(v: array<u32>, a: nat, lo: u32, hi: u32)
    requires v.Length % 2 == 0 && 2 * a + 1 < v.Length
    modifies v
    ensures Joined(v[..])[a] == Join(lo, hi)
    ensures forall w :: 0 <= w < v.Length / 2 && w != a ==> Joined(v[..])[w] == old(Joined(v[..])[w])
  {
    hide Joined, Join;
    WritePair(v, a, lo, hi);
  }

  lemma OtherWords(offs: seq<nat>, k: nat, length: nat)
    requires GoodOffsets(offs, length) && k < 16
    ensures forall j :: 0 <= j < k ==> offs[j] / 2 != offs[k] / 2
    ensures forall w: nat :: 2 * w !in offs[..k + 1] ==> 2 * w !in offs[..k] && w != offs[k] / 2
  {
    assert offs[..k + 1] == offs[..k] + [offs[k]];
    assert offs[k] in offs[..k + 1];
  }

  method PermuteScratch(S: array<u32>)
    requires S.Length == 32
    modifies S
    ensures Joined(S[..]) == P(old(Joined(S[..])))
  {
    hide MixB, Joined;
    BmG(S, 0, 4, 8, 12);
    BmG(S, 1, 5, 9, 13);
    BmG(S, 2, 6, 10, 14);
    BmG(S, 3, 7, 11, 15);
    BmG(S, 0, 5, 10, 15);
    BmG(S, 1, 6, 11, 12);
    BmG(S, 2, 7, 8, 13);
    BmG(S, 3, 4, 9, 14);
  }

  function RowOffsets(r: nat): (offs: seq<nat>)
    ensures |offs| == 16
  {
    seq(16, k => 32 * r + 2 * k)
  }

  function ColumnOffsets(c: nat): (offs: seq<nat>)
    ensures |offs| == 16
  {
    seq(16, k requires 0 <= k => 4 * c + 32 * (k / 2) + 2 * (k % 2))
  }

  lemma RowOffsetsGood(q: Words, r: nat)
    requires r < 8 && |q| == 128
    ensures GoodOffsets(RowOffsets(r), 256) && Gather(q, RowOffsets(r)) == Row(q, r)
    ensures forall k :: 0 <= k < 16 ==> RowOffsets(r)[k] / 2 == RowIndex(r, k)
    ensures forall w :: 0 <= w < 128 ==> (2 * w in RowOffsets(r) <==> w / 16 == r)
  {
    forall w | 0 <= w < 128 ensures 2 * w in RowOffsets(r) <==> w / 16 == r {
      OffsetInRow(r, w);
    }
  }

  lemma OffsetInRow(r: nat, w: nat)
    requires r < 8 && w < 128
    ensures 2 * w in RowOffsets(r) <==> w / 16 == r
  {
    if w / 16 == r {
      assert RowOffsets(r)[w % 16] == 2 * w;
    }
    if k :| 0 <= k < 16 && RowOffsets(r)[k] == 2 * w {
      DivModUnique(w, 16, r, k);
    }
  }

  lemma ColumnOffsetAt(c: nat, k: nat)
    requires c < 8 && k < 16
    ensures ColumnOffsets(c)[k] == 2 * ColumnIndex(c, k) && ColumnIndex(c, k) < 128
  {
    ColumnPartition(c, k, 0);
  }

  lemma ColumnOffsetsGood(q: Words, c: nat)
    requires c < 8 && |q| == 128
    ensures GoodOffsets(ColumnOffsets(c), 256) && Gather(q, ColumnOffsets(c)) == Column(q, c)
    ensures forall k :: 0 <= k < 16 ==> ColumnOffsets(c)[k] / 2 == ColumnIndex(c, k)
    ensures forall w :: 0 <= w < 128 ==> (2 * w in ColumnOffsets(c) <==> ColumnOf(w) == c)
  {
    hide ColumnOf, PlaceOf, ColumnIndex, ColumnOffsets;
    forall k | 0 <= k < 16 ensures ColumnOffsets(c)[k] == 2 * ColumnIndex(c, k) && ColumnIndex(c, k) < 128 {
      ColumnOffsetAt(c, k);
    }
    forall j, k | 0 <= j < k < 16 ensures ColumnOffsets(c)[j] != ColumnOffsets(c)[k] {
      ColumnPartition(c, j, ColumnIndex(c, k));
      ColumnPartition(c, k, ColumnIndex(c, k));
    }
    forall w | 0 <= w < 128 ensures 2 * w in ColumnOffsets(c) <==> ColumnOf(w) == c {
      ColumnPartition(c, 0, w);
      if ColumnOf(w) == c {
        ColumnPartition(c, PlaceOf(w), w);
        assert ColumnOffsets(c)[PlaceOf(w)] == 2 * w;
      }
      forall k | 0 <= k < 16 && ColumnOffsets(c)[k] == 2 * w ensures ColumnOf(w) == c {
        ColumnPartition(c, k, w);
      }
    }
  }

  /** The source's agPermute: P on the eight rows, then on the eight columns, in place. */
  method AgPermute(q: array<u32>, S: array<u32>)
    requires q.Length == 256 && S.Length == 32 && q != S
    modifies q, S
    ensures Joined(q[..]) == PermuteColumns(PermuteRows(old(Joined(q[..]))))
  {
    AllRows(q, S);
    AllColumns(q, S);
  }

  method AllRows(q: array<u32>, S: array<u32>)
    requires q.Length == 256 && S.Length == 32 && q != S
    modifies q, S
    ensures Joined(q[..]) == PermuteRows(old(Joined(q[..])))
  {
    hide P, Joined, GoodOffsets;
    ghost var start := Joined(q[..]);
    for r := 0 to 8
      invariant forall w :: 0 <= w < 128 ==> Joined(q[..])[w] == (if w / 16 < r then PermuteRows(start)[w] else start[w])
    {
      ghost var before := Joined(q[..]);
      RowOffsetsGood(before, r);
      assert Row(before, r) == Row(start, r);
      PApply(q, RowOffsets(r), S);
      forall w | 0 <= w < 128 && w / 16 == r ensures Joined(q[..])[w] == PermuteRows(start)[w] {
        RowPartition(r, w % 16, w);
      }
    }
  }

  method AllColumns(q: array<u32>, S: array<u32>)
    requires q.Length == 256 && S.Length == 32 && q != S
    modifies q, S
    ensures Joined(q[..]) == PermuteColumns(old(Joined(q[..])))
  {
    hide P, Joined, GoodOffsets, ColumnOf, PlaceOf, ColumnIndex, ColumnOffsets;
    ghost var start := Joined(q[..]);
    for c := 0 to 8
      invariant forall w :: 0 <= w < 128 ==> Joined(q[..])[w] == (if ColumnOf(w) < c then PermuteColumns(start)[w] else start[w])
    {
      ghost var before := Joined(q[..]);
      ColumnOffsetsGood(before, c);
      SameColumn(start, before, c);
      PApply(q, ColumnOffsets(c), S);
      forall w | 0 <= w < 128 && ColumnOf(w) == c ensures Joined(q[..])[w] == PermuteColumns(start)[w] {
        ColumnPartition(c, 0, w);
        ColumnPartition(c, PlaceOf(w), w);
      }
    }
    forall w | 0 <= w < 128 ensures ColumnOf(w) < 8 {
      ColumnPartition(0, 0, w);
    }
  }

  lemma SameColumn(q: Words, z: Words, c: nat)
    requires |q| == |z| == 128 && c < 8
    requires forall w :: 0 <= w < 128 && ColumnOf(w) == c ==> q[w] == z[w]
    ensures Column(q, c) == Column(z, c)
  {
    hide ColumnOf, PlaceOf, ColumnIndex;
    forall k | 0 <= k < 16 ensures Column(q, c)[k] == Column(z, c)[k] {
      ColumnPartition(c, k, 0);
      ColumnPartition(c, k, ColumnIndex(c, k));
    }
  }

  // ---- agCompress ----

  /** The 128 words of a flat array that start at half-word off. */
  function BlockAt(s: seq<u32>, off: nat): (b: Words)
    requires off + 256 <= |s|
    ensures |b| == 128
  {
    Joined(s[off..off + 256])
  }

  /** out = G(x, y), optionally XORed over the previous contents. */
  function Compressed(x: Words, y: Words, prev: Words, withXor: bool): (z: Words)
    requires |x| == |y| == |prev| == 128
    ensures |z| == 128
  {
    if withXor then XorBlocks(prev, G(x, y)) else G(x, y)
  }

  /** The source's agCompress on offsets into one flat array. */
  method AgCompress(B: array<u32>, xOff: nat, yOff: nat, outOff: nat, withXor: bool, R: array<u32>, Q: array<u32>, S: array<u32>)
    requires xOff + 256 <= B.Length && yOff + 256 <= B.Length && outOff + 256 <= B.Length
    requires R.Length == 256 && Q.Length == 256 && S.Length == 32 && B != R && B != Q && B != S && R != Q && R != S && Q != S
    modifies B, R, Q, S
    ensures BlockAt(B[..], outOff) == Compressed(old(BlockAt(B[..], xOff)), old(BlockAt(B[..], yOff)), old(BlockAt(B[..], outOff)), withXor)
    ensures forall k :: 0 <= k < B.Length && !(outOff <= k < outOff + 256) ==> B[k] == old(B[k])
  {
    hide BlockAt, Joined, PermuteRows, PermuteColumns, XorBlocks;
    XorInputs(B, xOff, yOff, R, Q);
    AgPermute(Q, S);
    WriteOutput(B, outOff, withXor, R, Q);
    XorOrder(old(BlockAt(B[..], outOff)), Joined(Q[..]), Joined(R[..]));
  }

  method XorInputs(B: array<u32>, xOff: nat, yOff: nat, R: array<u32>, Q: array<u32>)
    requires xOff + 256 <= B.Length && yOff + 256 <= B.Length
    requires R.Length == 256 && Q.Length == 256 && B != R && B != Q && R != Q
    modifies R, Q
    ensures Joined(R[..]) == XorBlocks(BlockAt(B[..], xOff), BlockAt(B[..], yOff))
    ensures Joined(Q[..]) == Joined(R[..])
  {
    hide Xor64, BitXor, ToUint32, Join;
    for i := 0 to 256
      invariant forall k :: 0 <= k < i ==> R[k] == Q[k] == ToUint32(BitXor(B[xOff + k], B[yOff + k]))
    {
      var r := BitXor(B[xOff + i], B[yOff + i]);
      R[i] := ToUint32(r);
      Q[i] := ToUint32(r);
    }
    assert R[..] == Q[..];
    forall w | 0 <= w < 128 ensures Joined(R[..])[w] == XorBlocks(BlockAt(B[..], xOff), BlockAt(B[..], yOff))[w] {
      XorPair(B[xOff + 2 * w], B[xOff + 2 * w + 1], B[yOff + 2 * w], B[yOff + 2 * w + 1]);
    }
  }

  method WriteOutput(B: array<u32>, outOff: nat, withXor: bool, R: array<u32>, Q: array<u32>)
    requires outOff + 256 <= B.Length && R.Length == 256 && Q.Length == 256 && B != R && B != Q
    modifies B
    ensures BlockAt(B[..], outOff) ==
      if withXor then XorBlocks(XorBlocks(old(BlockAt(B[..], outOff)), Joined(Q[..])), Joined(R[..]))
      else XorBlocks(Joined(Q[..]), Joined(R[..]))
    ensures forall k :: 0 <= k < B.Length && !(outOff <= k < outOff + 256) ==> B[k] == old(B[k])
  {
    hide Xor64, BitXor, ToUint32, Join;
    for i := 0 to 256
      invariant forall k :: 0 <= k < i ==>
        B[outOff + k] == ToUint32(if withXor then BitXor(old(B[outOff + k]), BitXor(Q[k], R[k])) else BitXor(Q[k], R[k]))
      invariant forall k :: 0 <= k < B.Length && !(outOff <= k < outOff + i) ==> B[k] == old(B[k])
    {
      if withXor {
        B[outOff + i] := ToUint32(BitXor(B[outOff + i], BitXor(Q[i], R[i])));
      } else {
        B[outOff + i] := ToUint32(BitXor(Q[i], R[i]));
      }
    }
    forall w | 0 <= w < 128 ensures BlockAt(B[..], outOff)[w] ==
      if withXor then Xor64(Xor64(old(BlockAt(B[..], outOff))[w], Joined(Q[..])[w]), Joined(R[..])[w])
      else Xor64(Joined(Q[..])[w], Joined(R[..])[w])
    {
      var k := outOff + 2 * w;
      if withXor {
        FeedPair(old(B[k]), old(B[k + 1]), Q[2 * w], Q[2 * w + 1], R[2 * w], R[2 * w + 1]);
      } else {
        XorPair(Q[2 * w], Q[2 * w + 1], R[2 * w], R[2 * w + 1]);
      }
    }
  }

  lemma XorOrder(a: Words, b: Words, c: Words)
    requires |a| == |b| == |c|
    ensures XorBlocks(XorBlocks(a, b), c) == XorBlocks(a, XorBlocks(b, c))
  {
    forall w | 0 <= w < |a| ensures Xor64(Xor64(a[w], b[w]), c[w]) == Xor64(a[w], Xor64(b[w], c[w])) {
      hide Xor;
      XorAssociates(a[w], b[w], c[w]);
    }
  }
}
