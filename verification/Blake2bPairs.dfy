/**
  The one-shot BLAKE2b of web/kdbx-read.js, on pairs of 32-bit halves, proved to compute the
  same digest as the 64-bit one.
 */
module Blake2bPairs {
  import opened Bits
  import opened Bytes
  import opened JsInt
  import opened Blake2b

  /** Word w of a half-word array occupies the indices 2w and 2w + 1. */
  function Joined(s: seq<u32>): (r: Words)
    requires |s| % 2 == 0
    ensures |r| == |s| / 2
  {
    seq(|s| / 2, i requires 0 <= i < |s| / 2 => Join(s[2 * i], s[2 * i + 1]))
  }

  lemma JoinedAt(s: seq<u32>, k: nat)
    requires |s| % 2 == 0 && k < |s| / 2
    ensures Joined(s)[k] == Join(s[2 * k], s[2 * k + 1])
  {
  }

  /** (al + bl + xl), its carry, and the high halves. */
  lemma AddPairs(al: u32, ah: u32, bl: u32, bh: u32, xl: u32, xh: u32)
    ensures var lo := al + bl + xl;
      Join(ToUint32(lo), ToUint32(ah + bh + xh + lo / W32)) == (Join(al, ah) + Join(bl, bh) + Join(xl, xh)) % W64
  {
    SumPair(al + bl + xl, ah + bh + xh);
    assert (al + bl + xl) + W32 * (ah + bh + xh) == Join(al, ah) + Join(bl, bh) + Join(xl, xh);
  }

  lemma AddTwoPairs(al: u32, ah: u32, bl: u32, bh: u32)
    ensures var lo := al + bl;
      Join(ToUint32(lo), ToUint32(ah + bh + lo / W32)) == (Join(al, ah) + Join(bl, bh)) % W64
  {
    AddPairs(al, ah, bl, bh, 0, 0);
  }

  /** XOR, then rotate by 32: xh >>> 0 becomes the low half. */
  lemma XorRotate32(dl: u32, dh: u32, al: u32, ah: u32)
    ensures Join(ToUint32(BitXor(dh, ah)), ToUint32(BitXor(dl, al))) == RotateRight32(Xor64(Join(dl, dh), Join(al, ah)))
  {
    hide Xor64, BitXor, ToUint32, RotateRight32;
    XorPair(dl, dh, al, ah);
    Rotate32(ToUint32(BitXor(dl, al)), ToUint32(BitXor(dh, ah)));
  }

  lemma XorRotate24(bl: u32, bh: u32, cl: u32, ch: u32)
    ensures var xl, xh := BitXor(bl, cl), BitXor(bh, ch);
      Join(ToUint32(BitOr(ShiftRight(xl, 0x100_0000), ShiftLeft(xh, 0x100))),
           ToUint32(BitOr(ShiftRight(xh, 0x100_0000), ShiftLeft(xl, 0x100))))
      == RotateRight24(Xor64(Join(bl, bh), Join(cl, ch)))
  {
    hide Xor64, BitXor, ToUint32, BitOr, ShiftRight, ShiftLeft, RotateRight24;
    var xl, xh := BitXor(bl, cl), BitXor(bh, ch);
    XorPair(bl, bh, cl, ch);
    Funnel24(xl, xh);
    Funnel24(xh, xl);
    Rotate24(ToUint32(xl), ToUint32(xh));
  }

  lemma XorRotate16(dl: u32, dh: u32, al: u32, ah: u32)
    ensures var xl, xh := BitXor(dl, al), BitXor(dh, ah);
      Join(ToUint32(BitOr(ShiftRight(xl, 0x1_0000), ShiftLeft(xh, 0x1_0000))),
           ToUint32(BitOr(ShiftRight(xh, 0x1_0000), ShiftLeft(xl, 0x1_0000))))
      == RotateRight16(Xor64(Join(dl, dh), Join(al, ah)))
  {
    hide Xor64, BitXor, ToUint32, BitOr, ShiftRight, ShiftLeft, RotateRight16;
    var xl, xh := BitXor(dl, al), BitXor(dh, ah);
    XorPair(dl, dh, al, ah);
    Funnel16(xl, xh);
    Funnel16(xh, xl);
    Rotate16(ToUint32(xl), ToUint32(xh));
  }

  lemma XorRotate63(bl: u32, bh: u32, cl: u32, ch: u32)
    ensures var xl, xh := BitXor(bl, cl), BitXor(bh, ch);
      Join(ToUint32(BitOr(ShiftLeft(xl, 2), ShiftRight(xh, 0x8000_0000))),
           ToUint32(BitOr(ShiftLeft(xh, 2), ShiftRight(xl, 0x8000_0000))))
      == RotateRight63(Xor64(Join(bl, bh), Join(cl, ch)))
  {
    hide Xor64, BitXor, ToUint32, BitOr, ShiftRight, ShiftLeft, RotateRight63;
    var xl, xh := BitXor(bl, cl), BitXor(bh, ch);
    XorPair(bl, bh, cl, ch);
    Funnel1(xl, xh);
    Funnel1(xh, xl);
    Rotate63(ToUint32(xl), ToUint32(xh));
  }

  /** The arithmetic of b2bG on its eight halves, with the message words (xl, xh) and (yl, yh). */
  method QuarterPairs(al0: u32, ah0: u32, bl0: u32, bh0: u32, cl0: u32, ch0: u32, dl0: u32, dh0: u32, ml: u32, mh: u32, nl: u32, nh: u32)
    returns (al: u32, ah: u32, bl: u32, bh: u32, cl: u32, ch: u32, dl: u32, dh: u32)
    ensures Quarter(Join(al0, ah0), Join(bl0, bh0), Join(cl0, ch0), Join(dl0, dh0), Join(ml, mh), Join(nl, nh))
         == (Join(al, ah), Join(bl, bh), Join(cl, ch), Join(dl, dh))
  {
    hide Xor, Xor64, BitXor, BitOr, ShiftLeft, ShiftRight, ToUint32, Join, RotateRight32, RotateRight24, RotateRight16, RotateRight63;
    al, ah, bl, bh := al0, ah0, bl0, bh0;
    cl, ch, dl, dh := cl0, ch0, dl0, dh0;
    AddPairs(al, ah, bl, bh, ml, mh);
    var lo: int := al as int + bl + ml;
    al, ah := ToUint32(lo), ToUint32(ah as int + bh + mh + lo / 0x1_0000_0000);
    XorRotate32(dl, dh, al, ah);
    var xl, xh := BitXor(dl, al), BitXor(dh, ah);
    dl, dh := ToUint32(xh), ToUint32(xl);
    AddTwoPairs(cl, ch, dl, dh);
    lo := cl as int + dl;
    cl, ch := ToUint32(lo), ToUint32(ch as int + dh + lo / 0x1_0000_0000);
    XorRotate24(bl, bh, cl, ch);
    xl, xh := BitXor(bl, cl), BitXor(bh, ch);
    bl := ToUint32(BitOr(ShiftRight(xl, 0x100_0000), ShiftLeft(xh, 0x100)));
    bh := ToUint32(BitOr(ShiftRight(xh, 0x100_0000), ShiftLeft(xl, 0x100)));
    AddPairs(al, ah, bl, bh, nl, nh);
    lo := al as int + bl + nl;
    al, ah := ToUint32(lo), ToUint32(ah as int + bh + nh + lo / 0x1_0000_0000);
    XorRotate16(dl, dh, al, ah);
    xl, xh := BitXor(dl, al), BitXor(dh, ah);
    dl := ToUint32(BitOr(ShiftRight(xl, 0x1_0000), ShiftLeft(xh, 0x1_0000)));
    dh := ToUint32(BitOr(ShiftRight(xh, 0x1_0000), ShiftLeft(xl, 0x1_0000)));
    AddTwoPairs(cl, ch, dl, dh);
    lo := cl as int + dl;
    cl, ch := ToUint32(lo), ToUint32(ch as int + dh + lo / 0x1_0000_0000);
    XorRotate63(bl, bh, cl, ch);
    xl, xh := BitXor(bl, cl), BitXor(bh, ch);
    bl := ToUint32(BitOr(ShiftLeft(xl, 2), ShiftRight(xh, 0x8000_0000)));
    bh := ToUint32(BitOr(ShiftLeft(xh, 2), ShiftRight(xl, 0x8000_0000)));
  }

  /** Word a of v, as the pair (lo, hi). */
  method WritePair(v: array<u32>, a: nat, lo: u32, hi: u32)
    requires v.Length % 2 == 0 && 2 * a + 1 < v.Length
    modifies v
    ensures Joined(v[..]) == old(Joined(v[..]))[a := Join(lo, hi)]
  {
    v[2 * a], v[2 * a + 1] := lo, hi;
  }

  /** The source's b2bG, on halves in place. */
  method B2bG(v: array<u32>, m: array<u32>, a: nat, b: nat, c: nat, d: nat, x: nat, y: nat)
    requires v.Length == 32 && m.Length == 32 && v != m && FourOf16(a, b, c, d) && x < 16 && y < 16
    modifies v
    ensures Joined(v[..]) == Mix(old(Joined(v[..])), a, b, c, d, Joined(m[..])[x], Joined(m[..])[y])
  {
    hide Quarter, Join;
    var al, ah, bl, bh := v[2 * a], v[2 * a + 1], v[2 * b], v[2 * b + 1];
    var cl, ch, dl, dh := v[2 * c], v[2 * c + 1], v[2 * d], v[2 * d + 1];
    al, ah, bl, bh, cl, ch, dl, dh :=
      QuarterPairs(al, ah, bl, bh, cl, ch, dl, dh, m[2 * x], m[2 * x + 1], m[2 * y], m[2 * y + 1]);
    WritePair(v, a, al, ah);
    WritePair(v, b, bl, bh);
    WritePair(v, c, cl, ch);
    WritePair(v, d, dl, dh);
  }

  /** The constants of this program: pairs of halves, low half first, and ten rows of message indices. */
  const B2B_IV: seq<u32> := [
    0xf3bcc908, 0x6a09e667, 0x84caa73b, 0xbb67ae85, 0xfe94f82b, 0x3c6ef372, 0x5f1d36f1, 0xa54ff53a,
    0xade682d1, 0x510e527f, 0x2b3e6c1f, 0x9b05688c, 0xfb41bd6b, 0x1f83d9ab, 0x137e2179, 0x5be0cd19]

  const B2B_SIGMA: seq<seq<Index>> := [
    [0, 1, 2, 3, 4, 5, 6, 7, 8, 9, 10, 11, 12, 13, 14, 15],
    [14, 10, 4, 8, 9, 15, 13, 6, 1, 12, 0, 2, 11, 7, 5, 3],
    [11, 8, 12, 0, 5, 2, 15, 13, 10, 14, 3, 6, 7, 1, 9, 4],
    [7, 9, 3, 1, 13, 12, 11, 14, 2, 6, 5, 10, 4, 0, 15, 8],
    [9, 0, 5, 7, 2, 4, 10, 15, 14, 1, 11, 12, 6, 8, 3, 13],
    [2, 12, 6, 10, 0, 11, 8, 3, 4, 13, 7, 5, 15, 14, 1, 9],
    [12, 5, 1, 15, 14, 13, 4, 10, 0, 7, 6, 3, 9, 2, 8, 11],
    [13, 11, 7, 14, 12, 1, 3, 9, 5, 0, 15, 4, 8, 6, 2, 10],
    [6, 15, 14, 9, 11, 3, 0, 8, 12, 2, 13, 7, 1, 4, 10, 5],
    [10, 2, 8, 4, 7, 6, 1, 5, 15, 11, 9, 14, 3, 12, 13, 0]]

  lemma IvPairs()
    ensures |B2B_IV| == 16 && Joined(B2B_IV) == Iv()
  {
    var j := Joined(B2B_IV);
    assert j[0] == Iv()[0] && j[1] == Iv()[1] && j[2] == Iv()[2] && j[3] == Iv()[3];
    assert j[4] == Iv()[4] && j[5] == Iv()[5] && j[6] == Iv()[6] && j[7] == Iv()[7];
  }

  lemma SigmaRows(r: nat)
    ensures |B2B_SIGMA| == 10 && |B2B_SIGMA[r % 10]| == 16 && B2B_SIGMA[r % 10] == Sigma(r)
  {
  }

  method DoRound(v: array<u32>, m: array<u32>, r: nat)
    requires v.Length == 32 && m.Length == 32 && v != m
    modifies v
    ensures Joined(v[..]) == Round(old(Joined(v[..])), Joined(m[..]), Sigma(r))
  {
    hide Mix, Sigma, Joined;
    SigmaRows(r);
    var s := B2B_SIGMA[r % 10];
    B2bG(v, m, 0, 4, 8, 12, s[0], s[1]);
    B2bG(v, m, 1, 5, 9, 13, s[2], s[3]);
    B2bG(v, m, 2, 6, 10, 14, s[4], s[5]);
    B2bG(v, m, 3, 7, 11, 15, s[6], s[7]);
    B2bG(v, m, 0, 5, 10, 15, s[8], s[9]);
    B2bG(v, m, 1, 6, 11, 12, s[10], s[11]);
    B2bG(v, m, 2, 7, 8, 13, s[12], s[13]);
    B2bG(v, m, 3, 4, 9, 14, s[14], s[15]);
  }

  method DoRounds(v: array<u32>, m: array<u32>)
    requires v.Length == 32 && m.Length == 32 && v != m
    modifies v
    ensures Joined(v[..]) == Rounds(old(Joined(v[..])), Joined(m[..]), 12)
  {
    hide Round, Sigma, Joined;
    for r := 0 to 12
      invariant Joined(v[..]) == Rounds(old(Joined(v[..])), Joined(m[..]), r)
    {
      DoRound(v, m, r);
    }
  }

  /** The source's b2bCompress; the counter is the pair (tLo, tHi). */
  method B2bCompress(h: array<u32>, v: array<u32>, m: array<u32>, tLo: u32, tHi: u32, last: bool)
    requires h.Length == 16 && v.Length == 32 && m.Length == 32 && h != v && h != m && v != m
    modifies h, v
    ensures Joined(h[..]) == Compress(old(Joined(h[..])), Joined(m[..]), Join(tLo, tHi), last)
  {
    hide Rounds, Joined, Work, Feed;
    SetUp(h, v, tLo, tHi, last);
    DoRounds(v, m);
    FeedForward(h, v);
  }

  method SetUp(h: array<u32>, v: array<u32>, tLo: u32, tHi: u32, last: bool)
    requires h.Length == 16 && v.Length == 32 && h != v
    modifies v
    ensures Joined(v[..]) == Work(Joined(h[..]), Join(tLo, tHi), last)
  {
    hide Xor, Xor64, BitXor, Join, Not64, ToUint32, BitNot, Iv, Joined;
    CopyState(h, v);
    JoinedAt(v[..], 12);
    XorPair(v[24], v[25], tLo, tHi);
    CounterFits(Iv()[5], Join(tLo, tHi));
    WritePair(v, 12, ToUint32(BitXor(v[24], tLo)), ToUint32(BitXor(v[25], tHi)));
    if last {
      JoinedAt(v[..], 14);
      NotPair(v[28], v[29]);
      WritePair(v, 14, ToUint32(BitNot(v[28])), ToUint32(BitNot(v[29])));
    }
  }

  method CopyState(h: array<u32>, v: array<u32>)
    requires h.Length == 16 && v.Length == 32 && h != v
    modifies v
    ensures Joined(v[..]) == Joined(h[..]) + Iv()
  {
    for i := 0 to 16
      invariant forall k :: 0 <= k < i ==> v[k] == h[k]
    {
      v[i] := h[i];
    }
    for i := 0 to 16
      invariant forall k :: 0 <= k < 16 ==> v[k] == h[k]
      invariant forall k :: 0 <= k < i ==> v[16 + k] == B2B_IV[k]
    {
      v[16 + i] := B2B_IV[i];
    }
    StateOf(h[..], v[..]);
  }

  lemma StateOf(h: seq<u32>, v: seq<u32>)
    requires |h| == 16 && |v| == 32 && (forall k :: 0 <= k < 16 ==> v[k] == h[k])
    requires forall k :: 0 <= k < 16 ==> v[16 + k] == B2B_IV[k]
    ensures Joined(v) == Joined(h) + Iv()
  {
    hide Join, Iv;
    IvPairs();
    forall k | 0 <= k < 16 ensures Joined(v)[k] == (Joined(h) + Iv())[k] {
      if k >= 8 {
        JoinedAt(B2B_IV, k - 8);
        assert v[2 * k] == v[16 + (2 * k - 16)] && v[2 * k + 1] == v[16 + (2 * k - 15)];
      }
    }
  }

  /** Below 2^64 the high counter word is zero and leaves its constant alone. */
  lemma CounterFits(w: u64, t: u64)
    ensures t % W64 == t && Xor64(w, t / W64 % W64) == w
  {
    hide Xor;
    XorZero(w);
  }

  /** ~v on both halves, stored as unsigned. */
  lemma NotPair(lo: u32, hi: u32)
    ensures Join(ToUint32(BitNot(lo)), ToUint32(BitNot(hi))) == Not64(Join(lo, hi))
  {
    NotHalf(lo);
    NotHalf(hi);
  }

  lemma NotHalf(x: u32)
    ensures ToUint32(BitNot(x)) == W32 - 1 - x
  {
  }

  method FeedForward(h: array<u32>, v: array<u32>)
    requires h.Length == 16 && v.Length == 32 && h != v
    modifies h
    ensures Joined(h[..]) == Feed(old(Joined(h[..])), Joined(v[..]))
  {
    hide Xor, Xor64, BitXor, ToUint32;
    for i := 0 to 16
      invariant forall k :: 0 <= k < i ==> h[k] == ToUint32(BitXor(old(h[k]), BitXor(v[k], v[16 + k])))
      invariant forall k :: i <= k < 16 ==> h[k] == old(h[k])
    {
      h[i] := ToUint32(BitXor(h[i], BitXor(v[i], v[16 + i])));
    }
    forall k | 0 <= k < 8 ensures Joined(h[..])[k] == Feed(old(Joined(h[..])), Joined(v[..]))[k] {
      FeedPair(old(h[2 * k]), old(h[2 * k + 1]), v[2 * k], v[2 * k + 1], v[16 + 2 * k], v[16 + 2 * k + 1]);
    }
  }

  /** h ^= v ^ w on halves: the inner XOR is signed, the stored one is not. */
  lemma FeedPair(hl: u32, hh: u32, vl: u32, vh: u32, wl: u32, wh: u32)
    ensures Join(ToUint32(BitXor(hl, BitXor(vl, wl))), ToUint32(BitXor(hh, BitXor(vh, wh))))
         == Xor64(Xor64(Join(hl, hh), Join(vl, vh)), Join(wl, wh))
  {
    hide Xor, BitXor, ToUint32, Join;
    BitXorTwice(hl, vl, wl);
    BitXorTwice(hh, vh, wh);
    XorPair(hl, hh, vl, vh);
    XorPair(ToUint32(BitXor(hl, vl)), ToUint32(BitXor(hh, vh)), wl, wh);
  }

  lemma BitXorTwice(a: u32, b: u32, c: u32)
    ensures ToUint32(BitXor(a, BitXor(b, c))) == ToUint32(BitXor(ToUint32(BitXor(a, b)), c))
  {
    hide Xor, ToUint32, ToInt32;
    BitXorUnsigned(a, b);
    BitXorUnsigned(b, c);
    BitXorUnsigned(Xor(a, b), c);
    BitXorUnsigned(a, Xor(b, c));
    XorAssociates(a, b, c);
    SignedOperand(a, BitXor(b, c));
  }

  /** An operand may be given signed. */
  lemma SignedOperand(a: u32, s: int)
    ensures BitXor(a, s) == BitXor(a, ToUint32(s))
  {
    hide Xor, ToInt32;
  }

  // ---- Bytes and half-words ----

  /** Half-word w of a 128-byte block. */
  function Half(block: seq<byte>, w: nat): u32
    requires |block| == 128 && w < 32
  {
    FourBytes(block[4 * w], block[4 * w + 1], block[4 * w + 2], block[4 * w + 3])
  }

  function FourBytes(a: byte, b: byte, c: byte, d: byte): u32 {
    a + 0x100 * b + 0x1_0000 * c + 0x100_0000 * d
  }

  lemma {:induction false} LeNatFour(s: seq<byte>)
    requires |s| == 4
    ensures LeNat(s) == FourBytes(s[0], s[1], s[2], s[3])
  {
    assert s[1..][1..] == s[2..] && s[2..][1..] == s[3..] && s[3..][1..] == [];
    assert LeNat(s[3..]) == s[3];
    assert LeNat(s[2..]) == s[2] as int + 256 * s[3] as int;
  }

  /** Two half-words are one message word. */
  lemma WordOfHalves(block: seq<byte>, i: nat)
    requires |block| == 128 && i < 16
    ensures Join(Half(block, 2 * i), Half(block, 2 * i + 1)) == BlockWords(block)[i]
  {
    hide LeNat, FourBytes;
    var low, high := block[8 * i..8 * i + 4], block[8 * i + 4..8 * i + 8];
    assert low + high == block[8 * i..8 * i + 8];
    LeNatEight(low, high);
    LeNatFour(low);
    LeNatFour(high);
  }

  lemma LeNatEight(low: seq<byte>, high: seq<byte>)
    requires |low| == |high| == 4
    ensures LeNat(low + high) == LeNat(low) + W32 * LeNat(high)
  {
    hide LeNat;
    LeNatConcat(low, high);
    LeNatBound(low);
  }

  /** The block after i of the chunk's bytes have been loaded. */
  function Loaded(chunk: seq<byte>, i: nat): (r: seq<byte>)
    requires i <= |chunk| <= 128
    ensures |r| == 128
  {
    chunk[..i] + Zeros(128 - i)
  }

  /** m[i >> 2] |= byte << ((i & 3) * 8) */
  lemma {:induction false} OrByte(word: u32, b: byte, j: nat, p: nat)
    requires j < 4 && p == Pow256(j) && word < p
    ensures ToUint32(BitOr(word, ShiftLeft(b, p))) == word + p * b < W32
  {
    hide Or, BitOr, ShiftLeft, ToUint32, Pow256, Pow2;
    BytePowers(j, p);
    var q := W32 / p;
    ShiftLeftUnsigned(b, p, q);
    SmallByte(b, q);
    AlreadyUnsigned(b);
    AlreadyUnsigned(word);
    OrDisjoint(word, b, 8 * j);
    BelowWord(word, b, p, q);
    OrUnsigned(word, ShiftLeft(b, p));
  }

  lemma {:induction false} BytePowers(j: nat, p: nat)
    requires j < 4 && p == Pow256(j)
    ensures p > 0 && W32 / p >= 256 && p * (W32 / p) == W32 && p == Pow2(8 * j)
  {
    assert Pow256(1) == 0x100 && Pow256(2) == 0x1_0000 && Pow256(3) == 0x100_0000;
    Pow2Values();
  }

  lemma SmallByte(b: byte, q: nat)
    requires q >= 256
    ensures b % q == b
  {
    DivModUnique(b, q, 0, b);
  }

  lemma BelowWord(word: nat, b: byte, p: nat, q: nat)
    requires word < p && p * q == W32 && q >= 256
    ensures word + p * b < W32
  {
    var room := q - 1 - b as int;
    assert p * q == p * b + p + p * room;
  }

  lemma LoadNext(chunk: seq<byte>, i: nat)
    requires i < |chunk| <= 128
    ensures var word, p := Half(Loaded(chunk, i), i / 4), Pow256(i % 4);
      word < p && Half(Loaded(chunk, i + 1), i / 4) == word + p * chunk[i]
    ensures forall w :: 0 <= w < 32 && w != i / 4 ==> Half(Loaded(chunk, i + 1), w) == Half(Loaded(chunk, i), w)
  {
    hide Loaded, FourBytes, Pow256, AtPlace;
    PlaceValue(i % 4, chunk[i]);
    LoadedBytes(chunk, i);
    var s, t, o := Loaded(chunk, i), Loaded(chunk, i + 1), i / 4 * 4;
    assert i == o + i % 4;
    FourBelow(s[o], s[o + 1], s[o + 2], s[o + 3], i % 4);
    FourStep(s[o], s[o + 1], s[o + 2], s[o + 3], t[o], t[o + 1], t[o + 2], t[o + 3], i % 4, chunk[i]);
  }

  /** One byte more of a little-endian word. */
  lemma FourStep(a: byte, b: byte, c: byte, d: byte, a': byte, b': byte, c': byte, d': byte, j: nat, x: byte)
    requires j < 4 && (j == 0 ==> a == 0) && (j <= 1 ==> b == 0) && (j <= 2 ==> c == 0) && d == 0
    requires a' == (if j == 0 then x else a) && b' == (if j == 1 then x else b)
    requires c' == (if j == 2 then x else c) && d' == (if j == 3 then x else d)
    ensures FourBytes(a', b', c', d') == FourBytes(a, b, c, d) + AtPlace(j, x)
  {
    hide FourBytes;
    PlaceZero(0);
    PlaceZero(x);
    PlaceOne(a, x);
    PlaceTwo(a, b, x);
    PlaceThree(a, b, c, x);
  }

  lemma PlaceZero(x: byte)
    ensures FourBytes(x, 0, 0, 0) == x
  {
  }

  lemma PlaceOne(a: byte, x: byte)
    ensures FourBytes(a, x, 0, 0) == FourBytes(a, 0, 0, 0) + 0x100 * x
  {
  }

  lemma PlaceTwo(a: byte, b: byte, x: byte)
    ensures FourBytes(a, b, x, 0) == FourBytes(a, b, 0, 0) + 0x1_0000 * x
  {
  }

  lemma PlaceThree(a: byte, b: byte, c: byte, x: byte)
    ensures FourBytes(a, b, c, x) == FourBytes(a, b, c, 0) + 0x100_0000 * x
  {
  }

  lemma FourBelow(a: byte, b: byte, c: byte, d: byte, j: nat)
    requires j < 4 && (j == 0 ==> a == 0) && (j <= 1 ==> b == 0) && (j <= 2 ==> c == 0) && d == 0
    ensures FourBytes(a, b, c, d) < (if j == 0 then 1 else if j == 1 then 0x100 else if j == 2 then 0x1_0000 else 0x100_0000)
  {
  }

  function AtPlace(j: nat, x: byte): nat
    requires j < 4
  {
    if j == 0 then x else if j == 1 then 0x100 * x else if j == 2 then 0x1_0000 * x else 0x100_0000 * x
  }

  lemma PlaceValue(j: nat, x: byte)
    requires j < 4
    ensures Pow256(j) == if j == 0 then 1 else if j == 1 then 0x100 else if j == 2 then 0x1_0000 else 0x100_0000
    ensures Pow256(j) * x == AtPlace(j, x)
  {
    assert Pow256(1) == 0x100 && Pow256(2) == 0x1_0000 && Pow256(3) == 0x100_0000;
  }

  lemma LoadedBytes(chunk: seq<byte>, i: nat)
    requires i < |chunk| <= 128
    ensures forall k :: 0 <= k < 128 && k != i ==> Loaded(chunk, i)[k] == Loaded(chunk, i + 1)[k]
    ensures Loaded(chunk, i + 1)[i] == chunk[i]
    ensures forall k :: i <= k < 128 ==> Loaded(chunk, i)[k] == 0
  {
  }

  method LoadBlock(m: array<u32>, chunk: seq<byte>)
    requires m.Length == 32 && |chunk| <= 128
    modifies m
    ensures Joined(m[..]) == BlockWords(chunk + Zeros(128 - |chunk|))
  {
    hide Half, Loaded, BitOr, ShiftLeft, BlockWords;
    for i := 0 to 32
      invariant forall k :: 0 <= k < i ==> m[k] == 0
    {
      m[i] := 0;
    }
    NothingLoaded(chunk);
    for i := 0 to |chunk|
      invariant forall w :: 0 <= w < 32 ==> m[w] == Half(Loaded(chunk, i), w)
    {
      LoadNext(chunk, i);
      OrByte(m[i / 4], chunk[i], i % 4, Pow256(i % 4));
      m[i / 4] := ToUint32(BitOr(m[i / 4], ShiftLeft(chunk[i], Pow256(i % 4))));
    }
    ghost var block := chunk + Zeros(128 - |chunk|);
    AllLoaded(chunk);
    forall i | 0 <= i < 16 ensures Joined(m[..])[i] == BlockWords(block)[i] {
      WordOfHalves(block, i);
    }
  }

  lemma NothingLoaded(chunk: seq<byte>)
    requires |chunk| <= 128
    ensures forall w :: 0 <= w < 32 ==> Half(Loaded(chunk, 0), w) == 0
  {
  }

  lemma AllLoaded(chunk: seq<byte>)
    requires |chunk| <= 128
    ensures Loaded(chunk, |chunk|) == chunk + Zeros(128 - |chunk|)
  {
    assert chunk[..|chunk|] == chunk;
  }

  /** (h[i >> 2] >>> ((i & 3) * 8)) & 0xff */
  lemma {:induction false} OutputByte(h: seq<u32>, i: nat)
    requires |h| == 16 && i < 64
    ensures ShiftRight(h[i / 4], Pow256(i % 4)) % 0x100 == ByteAt(Joined(h), i)
  {
    hide ToUint32;
    AlreadyUnsigned(h[i / 4]);
    var lo, hi, k := h[2 * (i / 8)], h[2 * (i / 8) + 1], i % 8;
    ByteOfPair(lo, hi, k);
    assert Joined(h)[i / 8] == Join(lo, hi);
    if k < 4 {
      assert i / 4 == 2 * (i / 8) && i % 4 == k;
    } else {
      assert i / 4 == 2 * (i / 8) + 1 && i % 4 == k - 4;
    }
  }

  lemma ByteOfPair(lo: u32, hi: u32, k: nat)
    requires k < 8
    ensures DigitIsByte(Join(lo, hi), Pow256(k)) == if k < 4 then lo / Pow256(k) % 0x100 else hi / Pow256(k - 4) % 0x100
  {
    assert Pow256(1) == 0x100 && Pow256(2) == 0x1_0000 && Pow256(3) == 0x100_0000;
    if k < 4 {
      LowDigit(lo, hi, Pow256(k), Pow256(3 - k));
    } else {
      assert Pow256(4) == W32 && Pow256(5) == W32 * 0x100 && Pow256(6) == W32 * 0x1_0000 && Pow256(7) == W32 * 0x100_0000;
      HighDigit(lo, hi, Pow256(k - 4));
    }
  }

  lemma LowDigit(lo: u32, hi: u32, p: nat, q: nat)
    requires p > 0 && p * (256 * q) == W32
    ensures (lo + W32 * hi) / p % 256 == lo / p % 256
  {
    var a, z := Quotient(lo, p), q * hi;
    assert p * (a + 256 * z) == p * a + W32 * hi by {
      assert p * (256 * z) == (p * (256 * q)) * hi;
    }
    DivModUnique(lo + W32 * hi, p, a + 256 * z, lo % p);
    DivModUnique(a + 256 * z, 256, a / 256 + z, a % 256);
  }

  lemma HighDigit(lo: u32, hi: u32, p: nat)
    requires p > 0
    ensures (lo + W32 * hi) / (W32 * p) == hi / p
  {
    var a, r := Quotient(hi, p), hi % p;
    assert W32 * p * a == W32 * (p * a);
    DivModUnique(lo + W32 * hi, W32 * p, a, lo + W32 * r);
  }

  // ---- The whole hash ----

  /** blake2b(data, outLen) of the reader. */
  method Hash(data: seq<byte>, outLen: nat) returns (out: array<byte>)
    requires 1 <= outLen <= 64 && |data| < W64
    ensures out[..] == Digest(data, outLen)
    ensures fresh(out)
  {
    hide Digest, FinalState, Absorb, Init, Joined, Compress, BlockWords, Output;
    var h := new u32[16](_ => 0);
    StartState(h, outLen);
    var v := new u32[32](_ => 0);
    var m := new u32[32](_ => 0);
    var tLo: int, tHi: int := 0, 0;
    var blockCount := if |data| == 0 then 1 else (|data| + 127) / 128;
    AbsorbNone(outLen, data);
    for bi := 0 to blockCount
      invariant Join64(tLo, tHi, if 128 * bi < |data| then 128 * bi else |data|)
      invariant bi < blockCount ==> 128 * bi <= |data| && Joined(h[..]) == Absorb(Init(outLen), data, bi)
      invariant bi == blockCount ==> Joined(h[..]) == FinalState(Init(outLen), data)
    {
      var off := bi * 128;
      var chunkLen := if |data| - off < 128 then |data| - off else 128;
      tLo := tLo + chunkLen;
      if tLo > 0xffffffff {
        tLo, tHi := tLo - 0x1_0000_0000, tHi + 1;
      }
      LoadBlock(m, data[off..off + chunkLen]);
      B2bCompress(h, v, m, tLo, tHi, bi == blockCount - 1);
      OneBlock(outLen, data, bi);
    }
    out := Emit(h, outLen);
    DigestIs(data, outLen);
  }

  /** The two counter halves hold t. */
  predicate Join64(lo: int, hi: int, t: nat) {
    0 <= lo < W32 && 0 <= hi < W32 && lo + W32 * hi == t
  }

  lemma {:induction false} AbsorbNone(outLen: nat, data: seq<byte>)
    requires 1 <= outLen <= 64
    ensures Absorb(Init(outLen), data, 0) == Init(outLen)
  {
  }

  lemma DigestIs(data: seq<byte>, outLen: nat)
    requires 1 <= outLen <= 64
    ensures Digest(data, outLen) == Output(FinalState(Init(outLen), data), outLen)
  {
  }

  /** Block bi, alone, advances the chaining value. */
  lemma OneBlock(outLen: nat, data: seq<byte>, bi: nat)
    requires 1 <= outLen <= 64 && bi <= WholeBlocks(|data|)
    ensures var chunk := data[128 * bi..if |data| < 128 * bi + 128 then |data| else 128 * bi + 128];
      var h, w := Absorb(Init(outLen), data, bi), BlockWords(chunk + Zeros(128 - |chunk|));
      if bi == WholeBlocks(|data|) then Compress(h, w, |data|, true) == FinalState(Init(outLen), data)
      else 128 * (bi + 1) <= |data| && Compress(h, w, 128 * (bi + 1), false) == Absorb(Init(outLen), data, bi + 1)
  {
    hide Compress, Init, BlockWords;
    if bi == WholeBlocks(|data|) {
      assert data[128 * bi..|data|] == data[128 * bi..];
    } else {
      var chunk := data[128 * bi..128 * (bi + 1)];
      assert chunk + Zeros(0) == chunk;
    }
  }

  method StartState(h: array<u32>, outLen: nat)
    requires h.Length == 16 && 1 <= outLen <= 64
    modifies h
    ensures Joined(h[..]) == Init(outLen)
  {
    hide Xor, Xor64, BitXor, ToUint32, Join;
    for i := 0 to 16
      invariant forall k :: 0 <= k < i ==> h[k] == B2B_IV[k]
    {
      h[i] := B2B_IV[i];
    }
    IvPairs();
    assert h[..] == B2B_IV;
    ParameterSmall(outLen);
    LowXor(h[0], h[1], Xor(0x01010000, outLen));
    WritePair(h, 0, ToUint32(BitXor(h[0], Xor(0x01010000, outLen))), h[1]);
  }

  /** XORing only the low half is XORing the 64-bit word with a small number. */
  lemma LowXor(lo: u32, hi: u32, x: u32)
    ensures Join(ToUint32(BitXor(lo, x)), hi) == Xor64(Join(lo, hi), x)
  {
    hide Xor, BitXor, ToUint32, Xor64;
    XorPair(lo, hi, x, 0);
    BitXorUnsigned(hi, 0);
    XorZero(hi);
    assert Join(x, 0) == x;
  }

  method Emit(h: array<u32>, outLen: nat) returns (out: array<byte>)
    requires h.Length == 16 && outLen <= 64
    ensures out[..] == Output(Joined(h[..]), outLen)
    ensures fresh(out)
  {
    hide ByteAt, ShiftRight, Joined;
    out := new byte[outLen](_ => 0);
    for i := 0 to outLen
      invariant forall j :: 0 <= j < i ==> out[j] == ByteAt(Joined(h[..]), j)
    {
      OutputByte(h[..], i);
      out[i] := ShiftRight(h[i / 4], Pow256(i % 4)) % 0x100;
    }
  }
}
