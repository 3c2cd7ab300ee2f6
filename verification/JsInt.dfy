/**
  The 32-bit integer operators of JavaScript on exact integers, and 64-bit words held as
  little-endian pairs of 32-bit halves.

  Bitwise operators convert to 32 bits and return SIGNED results; only `x >>> n` is unsigned.
  Sums of a few halves stay far below 2^53, so they are exact integers.
 */
module JsInt {
  import opened Bits

  const W32 := 0x1_0000_0000
  const W64 := 0x1_0000_0000_0000_0000

  type u32 = x: int | 0 <= x < W32
  type u64 = x: int | 0 <= x < W64

  /** x >>> 0 */
  function ToUint32(x: int): u32 {
    x % W32
  }

  function ToInt32(x: int): int {
    if x % W32 >= 0x8000_0000 then x % W32 - W32 else x % W32
  }

  /** a ^ b */
  function BitXor(a: int, b: int): int {
    ToInt32(Xor(ToUint32(a), ToUint32(b)))
  }

  /** a | b */
  function BitOr(a: int, b: int): int {
    ToInt32(Or(ToUint32(a), ToUint32(b)))
  }

  /** ~a */
  function BitNot(a: int): int {
    -ToInt32(a) - 1
  }

  /** a << n, with the power of two spelled out */
  function ShiftLeft(a: int, p: nat): int {
    ToInt32(ToUint32(a) * p)
  }

  /** a >>> n, with the power of two spelled out */
  function ShiftRight(a: int, p: nat): u32
    requires p > 0
  {
    ShiftSmaller(ToUint32(a), p);
    ToUint32(a) / p
  }

  lemma ShiftSmaller(x: u32, p: nat)
    requires p > 0
    ensures 0 <= x / p <= x
  {
    var q: nat := Quotient(x, p);
    if q > 0 {
      AtLeastOnce(q, p);
    }
    assert x == p * q + x % p;
  }

  function Quotient(x: nat, p: nat): nat
    requires p > 0
  {
    x / p
  }

  // ---- Unsigned views ----

  lemma {:induction false} XorWord(a: u32, b: u32)
    ensures Xor(a, b) < W32
  {
    hide Xor;
    Pow2Values();
    XorSplit(a, b, 0, 0, 32);
  }

  /** A signed XOR, read as unsigned again, is the XOR of the words. */
  lemma {:induction false} BitXorUnsigned(a: u32, b: u32)
    ensures ToUint32(BitXor(a, b)) == Xor(a, b) < W32
  {
    hide Xor, ToUint32, ToInt32;
    XorWord(a, b);
    AlreadyUnsigned(a);
    AlreadyUnsigned(b);
    ToUint32OfSigned(Xor(a, b));
    AlreadyUnsigned(Xor(a, b));
  }

  lemma AlreadyUnsigned(a: u32)
    ensures ToUint32(a) == a
  {
  }

  lemma ToUint32OfSigned(z: int)
    ensures ToUint32(ToInt32(z)) == ToUint32(z)
  {
  }

  // ---- 64-bit words as pairs ----

  function Join(lo: u32, hi: u32): u64 {
    lo + W32 * hi
  }

  function Xor64(a: u64, b: u64): u64 {
    XorWide(a, b);
    Xor(a, b)
  }

  lemma {:induction false} XorWide(a: u64, b: u64)
    ensures Xor(a, b) == Xor(a % W32, b % W32) + W32 * Xor(a / W32, b / W32)
    ensures Xor(a, b) < W64
  {
    hide Xor;
    var al, ah, bl, bh := a % W32, a / W32, b % W32, b / W32;
    Pow2Values();
    XorSplit(al, bl, ah, bh, 32);
    XorWord(ah, bh);
    XorWord(al, bl);
  }

  /** XOR works on the halves separately. */
  lemma XorPair(al: u32, ah: u32, bl: u32, bh: u32)
    ensures Xor64(Join(al, ah), Join(bl, bh)) == Join(ToUint32(BitXor(al, bl)), ToUint32(BitXor(ah, bh)))
  {
    hide Xor;
    Pow2Values();
    XorSplit(al, bl, ah, bh, 32);
    BitXorUnsigned(al, bl);
    BitXorUnsigned(ah, bh);
  }

  /** A sum of low halves, its carry, and a sum of high halves make the 64-bit sum. */
  lemma SumPair(low: nat, high: nat)
    ensures Join(low % W32, (high + low / W32) % W32) == (low + W32 * high) % W64
  {
    var l, h := low % W32, high + low / W32;
    assert low + W32 * high == l + W32 * h;
    assert W32 * h == W32 * (h % W32) + W64 * (h / W32);
    DivModUnique(low + W32 * high, W64, h / W32, l + W32 * (h % W32));
  }

  function RotateRight32(x: u64): u64 {
    x / W32 + x % W32 * W32
  }

  function RotateRight24(x: u64): u64 {
    x / 0x100_0000 + x % 0x100_0000 * 0x100_0000_0000
  }

  function RotateRight16(x: u64): u64 {
    x / 0x1_0000 + x % 0x1_0000 * 0x1_0000_0000_0000
  }

  function RotateRight63(x: u64): u64 {
    x / 0x8000_0000_0000_0000 + x % 0x8000_0000_0000_0000 * 2
  }

  /** Rotation by 32 swaps the halves. */
  lemma Rotate32(lo: u32, hi: u32)
    ensures RotateRight32(Join(lo, hi)) == Join(hi, lo)
  {
  }

  lemma OrUnsigned(a: int, b: int)
    requires Or(ToUint32(a), ToUint32(b)) < W32
    ensures ToUint32(BitOr(a, b)) == Or(ToUint32(a), ToUint32(b))
  {
    hide Or, ToUint32, ToInt32;
    ToUint32OfSigned(Or(ToUint32(a), ToUint32(b)));
    AlreadyUnsigned(Or(ToUint32(a), ToUint32(b)));
  }

  /** Shifting left drops the bits above 32: with p * q == 2^32, only y modulo q survives. */
  lemma ShiftLeftUnsigned(y: int, p: nat, q: nat)
    requires p * q == W32 && q > 0
    ensures ToUint32(ShiftLeft(y, p)) == p * (ToUint32(y) % q)
  {
    hide ToInt32;
    var w := ToUint32(y);
    var high, low := w / q, w % q;
    ToUint32OfSigned(w * p);
    assert w * p == p * low + W32 * high by {
      assert w == q * high + low;
      ProductOfParts(w, p, q, high, low);
    }
    assert p * low < W32 by {
      StrictProduct(p, low, q);
    }
    DivModUnique(w * p, W32, high, p * low);
  }

  lemma ProductOfParts(w: nat, p: nat, q: nat, high: nat, low: nat)
    requires w == q * high + low && p * q == W32
    ensures w * p == p * low + W32 * high
  {
    assert w * p == p * (q * high) + p * low;
    assert p * (q * high) == (p * q) * high;
  }

  lemma StrictProduct(p: nat, low: nat, q: nat)
    requires low < q && p > 0
    ensures 0 <= p * low < p * q
  {
    assert p * (q - low) > 0;
    assert p * (q - low) == p * q - p * low;
  }

  /** ((x >>> 24) | (y << 8)) >>> 0 */
  lemma Funnel24(x: int, y: int)
    ensures ToUint32(BitOr(ShiftRight(x, 0x100_0000), ShiftLeft(y, 0x100))) == ToUint32(x) / 0x100_0000 + 0x100 * (ToUint32(y) % 0x100_0000)
  {
    hide Or, ShiftLeft, BitOr, ToUint32;
    var high, low := ToUint32(x) / 0x100_0000, ToUint32(y) % 0x100_0000;
    Pow2Values();
    ShiftLeftUnsigned(y, 0x100, 0x100_0000);
    AlreadyUnsigned(high);
    OrDisjoint(high, low, 8);
    OrUnsigned(high, ShiftLeft(y, 0x100));
  }

  /** ((x >>> 16) | (y << 16)) >>> 0 */
  lemma Funnel16(x: int, y: int)
    ensures ToUint32(BitOr(ShiftRight(x, 0x1_0000), ShiftLeft(y, 0x1_0000))) == ToUint32(x) / 0x1_0000 + 0x1_0000 * (ToUint32(y) % 0x1_0000)
  {
    hide Or, ShiftLeft, BitOr, ToUint32;
    var high, low := ToUint32(x) / 0x1_0000, ToUint32(y) % 0x1_0000;
    Pow2Values();
    ShiftLeftUnsigned(y, 0x1_0000, 0x1_0000);
    AlreadyUnsigned(high);
    OrDisjoint(high, low, 16);
    OrUnsigned(high, ShiftLeft(y, 0x1_0000));
  }

  /** ((x << 1) | (y >>> 31)) >>> 0 */
  lemma Funnel1(x: int, y: int)
    ensures ToUint32(BitOr(ShiftLeft(x, 2), ShiftRight(y, 0x8000_0000))) == ToUint32(y) / 0x8000_0000 + 2 * (ToUint32(x) % 0x8000_0000)
  {
    hide Or, ShiftLeft, BitOr, ToUint32;
    var high, low := ToUint32(y) / 0x8000_0000, ToUint32(x) % 0x8000_0000;
    assert Pow2(1) == 2;
    ShiftLeftUnsigned(x, 2, 0x8000_0000);
    AlreadyUnsigned(high);
    OrDisjoint(high, low, 1);
    OrUnsigned(ShiftLeft(x, 2), high);
  }

  lemma Rotate24(lo: u32, hi: u32)
    ensures RotateRight24(Join(lo, hi)) == Join(lo / 0x100_0000 + 0x100 * (hi % 0x100_0000), hi / 0x100_0000 + 0x100 * (lo % 0x100_0000))
  {
    var high, low := lo / 0x100_0000, lo % 0x100_0000;
    DivModUnique(lo + W32 * hi, 0x100_0000, high + 0x100 * hi, low);
  }

  lemma Rotate16(lo: u32, hi: u32)
    ensures RotateRight16(Join(lo, hi)) == Join(lo / 0x1_0000 + 0x1_0000 * (hi % 0x1_0000), hi / 0x1_0000 + 0x1_0000 * (lo % 0x1_0000))
  {
    var high, low := lo / 0x1_0000, lo % 0x1_0000;
    DivModUnique(lo + W32 * hi, 0x1_0000, high + 0x1_0000 * hi, low);
  }

  lemma Rotate63(lo: u32, hi: u32)
    ensures RotateRight63(Join(lo, hi)) == Join(hi / 0x8000_0000 + 2 * (lo % 0x8000_0000), lo / 0x8000_0000 + 2 * (hi % 0x8000_0000))
  {
    var high, low := hi / 0x8000_0000, hi % 0x8000_0000;
    DivModUnique(lo + W32 * hi, 0x8000_0000_0000_0000, high, lo + W32 * low);
  }
}
