/**
  Arithmetic in GF(256) as web/qr.js does it: two tables filled by one loop over the
  powers of α, and multiplication by adding logarithms.

  The reference is the field GF(2)[x] / (x^8 + x^4 + x^3 + x^2 + 1) itself. A byte is a
  polynomial over GF(2), addition is XOR, Xtime multiplies by x and reduces by 0x11D, and
  Mul(a, b) is the sum of x^i · a over the set bits i of b.
 */
module Gf256 {
  import opened Bits

  /** Multiplication by α = x. */
  function Xtime(a: byte): byte {
    XorByte(2 * (a % 128), if a >= 128 then 0x1D else 0)
  }

  /** Multiplication in GF(256). */
  function Mul(a: byte, b: byte): byte
    decreases b
  {
    if b == 0 then 0 else XorByte(if b % 2 == 1 then a else 0, Mul(Xtime(a), b / 2))
  }

  /** α^n. */
  function Pow(n: nat): byte {
    if n == 0 then 1 else Xtime(Pow(n - 1))
  }

  // ---- Ring laws ----

  lemma XtimeLinear(a: byte, b: byte)
    ensures Xtime(XorByte(a, b)) == XorByte(Xtime(a), Xtime(b))
  {
    hide Xor;
    var al, bl, ah, bh := a % 128, b % 128, a / 128, b / 128;
    var ra, rb := if a >= 128 then 0x1D else 0, if b >= 128 then 0x1D else 0;
    Pow2Values();
    XorSplit(al, bl, ah, bh, 7);
    XorBits(ah, bh);
    XorDouble(0, 0, al, bl);
    XorSwap(2 * al, ra, 2 * bl, rb);
    XorZero(ra);
    XorZero(rb);
    XorSelf(ra);
  }

  lemma {:induction false} MulXtime(a: byte, b: byte)
    ensures Mul(Xtime(a), b) == Xtime(Mul(a, b))
    decreases b
  {
    if b > 0 {
      MulXtime(Xtime(a), b / 2);
      XtimeLinear(if b % 2 == 1 then a else 0, Mul(Xtime(a), b / 2));
    }
  }

  lemma {:induction false} MulDistributes(a: byte, b: byte, c: byte)
    ensures Mul(a, XorByte(b, c)) == XorByte(Mul(a, b), Mul(a, c))
    decreases b + c
  {
    if b == 0 || c == 0 {
      XorZero(b);
      XorZero(c);
      XorZero(Mul(a, b));
      XorZero(Mul(a, c));
    } else {
      XorDigits(b, c);
      MulDistributes(Xtime(a), b / 2, c / 2);
      var x, y := if b % 2 == 1 then a else 0, if c % 2 == 1 then a else 0;
      XorSwap(x, Mul(Xtime(a), b / 2), y, Mul(Xtime(a), c / 2));
      XorZero(x);
      XorZero(y);
      XorSelf(x);
      MulDigits(a, XorByte(b, c));
    }
  }

  lemma {:induction false} MulDigits(a: byte, b: byte)
    ensures Mul(a, b) == XorByte(if b % 2 == 1 then a else 0, Mul(Xtime(a), b / 2))
  {
    XorZero(0);
  }

  lemma {:induction false} MulDistributesLeft(a: byte, b: byte, c: byte)
    ensures Mul(XorByte(b, c), a) == XorByte(Mul(b, a), Mul(c, a))
    decreases a
  {
    if a == 0 {
      XorZero(0);
    } else {
      XtimeLinear(b, c);
      MulDistributesLeft(a / 2, Xtime(b), Xtime(c));
      var x, y := if a % 2 == 1 then b else 0, if a % 2 == 1 then c else 0;
      XorSwap(x, Mul(Xtime(b), a / 2), y, Mul(Xtime(c), a / 2));
      XorZero(0);
    }
  }

  lemma {:induction false} MulZero(a: byte)
    ensures Mul(a, 0) == 0 && Mul(0, a) == 0
    decreases a
  {
    XorZero(0);
    assert Xtime(0) == 0;
    if a > 0 {
      MulZero(a / 2);
    }
  }

  /** A product's first factor may itself be expanded bit by bit. */
  lemma {:induction false} MulOuter(y: byte, a: byte, b: byte)
    ensures Mul(Mul(y, a), b) == Mul(Mul(y, b), a)
    decreases a
  {
    if a == 0 {
      MulZero(b);
    } else {
      MulZero(b);
      MulDistributesLeft(b, if a % 2 == 1 then y else 0, Mul(Xtime(y), a / 2));
      MulOuter(Xtime(y), a / 2, b);
      MulXtime(y, b);
    }
  }

  lemma {:induction false} MulOne(b: byte)
    ensures Mul(1, b) == b
    decreases b
  {
    hide Xor, Xtime;
    if b > 0 {
      MulOne(b / 2);
      MulXtime(1, b / 2);
      SmallXtime(b / 2);
      LowBit(b);
    }
  }

  lemma SmallXtime(x: byte)
    requires x < 128
    ensures Xtime(x) == 2 * x
  {
    hide Xor;
    XorZero(2 * x);
  }

  /** The lowest digit and the others, put together. */
  lemma LowBit(b: byte)
    ensures XorByte(b % 2, 2 * (b / 2)) == b && XorByte(0, 2 * (b / 2)) == 2 * (b / 2)
  {
    hide Xor;
    XorDouble(b % 2, 0, 0, b / 2);
    XorZero(b % 2);
    XorZero(b / 2);
    XorCommutes(0, b / 2);
    XorZero(2 * (b / 2));
    XorCommutes(0, 2 * (b / 2));
  }

  lemma {:induction false} MulCommutes(a: byte, b: byte)
    ensures Mul(a, b) == Mul(b, a)
  {
    MulOne(a);
    MulOne(b);
    MulOuter(1, a, b);
  }

  lemma {:induction false} MulAssociates(a: byte, b: byte, c: byte)
    ensures Mul(Mul(a, b), c) == Mul(a, Mul(b, c))
  {
    MulCommutes(a, b);
    MulOuter(b, a, c);
    MulCommutes(a, Mul(b, c));
  }

  // ---- Powers of α ----

  lemma {:induction false} PowAdd(m: nat, n: nat)
    ensures Mul(Pow(m), Pow(n)) == Pow(m + n)
  {
    hide Xor, Mul;
    if m == 0 {
      MulOne(Pow(n));
    } else {
      PowAdd(m - 1, n);
      MulXtime(Pow(m - 1), Pow(n));
    }
  }

  /** Xtime in plain arithmetic: above 128, 0x1D flips the bits 0, 2, 3 and 4 of the double. */
  function Double(a: int): int {
    if a < 128 then 2 * a else var t := a % 16; 1 + 2 * (a - 128 - t + 14 - t + 2 * (t % 2))
  }

  lemma DoubleIsXtime(a: byte)
    ensures Double(a) == Xtime(a)
  {
    hide Xor;
    if a < 128 {
      XorZero(2 * a);
    } else {
      var s := a - 128;
      assert s % 16 == a % 16;
      FlipByte(s / 16, s % 16, s);
      XorDouble(0, 1, s, 14);
    }
  }

  lemma {:induction false} FlipByte(q: nat, t: nat, s: nat)
    requires t < 16 && s == t + 16 * q
    ensures Xor(s, 14) == s - t + 14 - t + 2 * (t % 2)
  {
    hide Xor;
    FlipNibble(t);
    assert Pow2(4) == 16;
    XorSplit(t, 14, q, 0, 4);
    XorZero(q);
  }

  lemma {:induction false} FlipNibble(t: nat)
    requires t < 16
    ensures Xor(t, 14) == 14 - t + 2 * (t % 2)
  {
    hide Xor;
    XorDouble(t % 2, 0, t / 2, 7);
    XorDouble(t / 2 % 2, 1, t / 4, 3);
    XorDouble(t / 4 % 2, 1, t / 8, 1);
    XorBits(t / 8, 1);
  }

  /** Eight doublings at once, each checked on literals. */
  lemma PowRow(n: nat, v0: byte, v1: byte, v2: byte, v3: byte, v4: byte, v5: byte, v6: byte, v7: byte, v8: byte)
    requires Pow(n) == v0 && Double(v0) == v1 && Double(v1) == v2 && Double(v2) == v3 && Double(v3) == v4
    requires Double(v4) == v5 && Double(v5) == v6 && Double(v6) == v7 && Double(v7) == v8
    ensures Pow(n + 8) == v8
    ensures Pow(n + 3) == v3 && Pow(n + 5) == v5 && Pow(n + 7) == v7
  {
    hide Xor, Double;
    DoubleIsXtime(v0);
    DoubleIsXtime(v1);
    DoubleIsXtime(v2);
    DoubleIsXtime(v3);
    DoubleIsXtime(v4);
    DoubleIsXtime(v5);
    DoubleIsXtime(v6);
    DoubleIsXtime(v7);
    assert Pow(n + 1) == v1 && Pow(n + 2) == v2;
    assert Pow(n + 4) == v4;
    assert Pow(n + 6) == v6;
  }

  lemma Pow56()
    ensures Pow(56) == 93
    ensures Pow(15) == 38 && Pow(51) == 10
  {
    hide Xor, Pow;
    PowZero();
    PowRow(0, 1, 2, 4, 8, 16, 32, 64, 128, 29);
    PowRow(8, 29, 58, 116, 232, 205, 135, 19, 38, 76);
    PowRow(16, 76, 152, 45, 90, 180, 117, 234, 201, 143);
    PowRow(24, 143, 3, 6, 12, 24, 48, 96, 192, 157);
    PowRow(32, 157, 39, 78, 156, 37, 74, 148, 53, 106);
    PowRow(40, 106, 212, 181, 119, 238, 193, 159, 35, 70);
    PowRow(48, 70, 140, 5, 10, 20, 40, 80, 160, 93);
  }

  lemma Pow112()
    ensures Pow(112) == 129
    ensures Pow(85) == 214
  {
    hide Xor, Pow;
    Pow56();
    PowRow(56, 93, 186, 105, 210, 185, 111, 222, 161, 95);
    PowRow(64, 95, 190, 97, 194, 153, 47, 94, 188, 101);
    PowRow(72, 101, 202, 137, 15, 30, 60, 120, 240, 253);
    PowRow(80, 253, 231, 211, 187, 107, 214, 177, 127, 254);
    PowRow(88, 254, 225, 223, 163, 91, 182, 113, 226, 217);
    PowRow(96, 217, 175, 67, 134, 17, 34, 68, 136, 13);
    PowRow(104, 13, 26, 52, 104, 208, 189, 103, 206, 129);
  }

  lemma Pow160()
    ensures Pow(160) == 230
  {
    hide Xor, Pow;
    Pow112();
    PowRow(112, 129, 31, 62, 124, 248, 237, 199, 147, 59);
    PowRow(120, 59, 118, 236, 197, 151, 51, 102, 204, 133);
    PowRow(128, 133, 23, 46, 92, 184, 109, 218, 169, 79);
    PowRow(136, 79, 158, 33, 66, 132, 21, 42, 84, 168);
    PowRow(144, 168, 77, 154, 41, 82, 164, 85, 170, 73);
    PowRow(152, 73, 146, 57, 114, 228, 213, 183, 115, 230);
  }

  lemma Pow184()
    ensures Pow(184) == 149
  {
    hide Xor, Pow;
    Pow160();
    PowRow(160, 230, 209, 191, 99, 198, 145, 63, 126, 252);
    PowRow(168, 252, 229, 215, 179, 123, 246, 241, 255, 227);
    PowRow(176, 227, 219, 171, 75, 150, 49, 98, 196, 149);
  }

  lemma Pow208()
    ensures Pow(208) == 81
  {
    hide Xor, Pow;
    Pow184();
    PowRow(184, 149, 55, 110, 220, 165, 87, 174, 65, 130);
    PowRow(192, 130, 25, 50, 100, 200, 141, 7, 14, 28);
    PowRow(200, 28, 56, 112, 224, 221, 167, 83, 166, 81);
  }

  lemma Pow232()
    ensures Pow(232) == 247
  {
    hide Xor, Pow;
    Pow208();
    PowRow(208, 81, 162, 89, 178, 121, 242, 249, 239, 195);
    PowRow(216, 195, 155, 43, 86, 172, 69, 138, 9, 18);
    PowRow(224, 18, 36, 72, 144, 61, 122, 244, 245, 247);
  }

  lemma Pow256()
    ensures Pow(255) == 1
  {
    hide Xor, Pow;
    Pow232();
    PowRow(232, 247, 243, 251, 235, 203, 139, 11, 22, 44);
    PowRow(240, 44, 88, 176, 125, 250, 233, 207, 131, 27);
    PowRow(248, 27, 54, 108, 216, 173, 71, 142, 1, 2);
  }

  lemma PowValues()
    ensures Pow(15) == 38 && Pow(51) == 10 && Pow(85) == 214 && Pow(255) == 1
  {
    hide Xor, Pow;
    Pow56();
    Pow112();
    Pow160();
    Pow208();
    Pow256();
  }

  /** α^m divides out of α^n. */
  lemma PowCancel(m: nat, n: nat)
    requires m <= 255 && m <= n && Pow(m) == Pow(n)
    ensures Pow(n - m) == 1
  {
    hide Xor, Mul, Pow;
    PowValues();
    PowAdd(255 - m, m);
    PowAdd(255 - m, n);
    PowAdd(255, n - m);
    MulOne(Pow(n - m));
  }

  lemma {:induction false} PowNonzero(m: nat)
    requires m <= 255
    ensures Pow(m) != 0
  {
    hide Xor, Mul, Pow;
    PowValues();
    PowAdd(255 - m, m);
    MulZero(Pow(255 - m));
  }

  /** A common divisor d of a and b with α^d == 1, found by subtracting. */
  lemma {:induction false} Euclid(a: nat, b: nat) returns (d: nat, i: nat, j: nat)
    requires 0 < a <= 255 && 0 < b <= 255 && Pow(a) == 1 && Pow(b) == 1
    ensures 0 < d <= a && d <= b && i > 0 && j > 0 && a == d * i && b == d * j && Pow(d) == 1
    decreases a + b
  {
    hide Xor, Pow, Mul;
    if a == b {
      d, i, j := a, 1, 1;
    } else if a > b {
      PowCancel(b, a);
      d, i, j := Euclid(a - b, b);
      assert d * (i + j) == d * i + d * j;
      i := i + j;
    } else {
      PowCancel(a, b);
      d, i, j := Euclid(a, b - a);
      assert d * (i + j) == d * i + d * j;
      j := i + j;
    }
  }

  lemma {:induction false} PowMultiple(d: nat, k: nat)
    requires Pow(d) == 1
    ensures Pow(d * k) == 1
    decreases k
  {
    hide Xor, Mul, Pow;
    if k == 0 {
      PowZero();
    } else {
      PowMultiple(d, k - 1);
      var e := d * (k - 1);
      assert d * k == e + d;
      PowAdd(e, d);
      MulOne(1);
    }
  }

  lemma PowZero()
    ensures Pow(0) == 1
  {
  }

  /** A proper divisor of 255 = 3 · 5 · 17 divides 85, 51 or 15. */
  lemma ProperDivisor(d: nat, i: nat) returns (k: nat)
    requires d * i == 255 && i > 1 && d > 0
    ensures d * k == 85 || d * k == 51 || d * k == 15
  {
    if i % 3 == 0 {
      k := i / 3;
      assert 3 * (d * k) == d * i;
    } else if i % 5 == 0 {
      k := i / 5;
      assert 5 * (d * k) == d * i;
    } else {
      k := i / 17;
      SmallDivisors(d, i);
      assert 17 * (d * k) == d * i;
    }
  }

  lemma SmallDivisors(d: nat, i: nat)
    requires d * i == 255 && i > 1 && d > 0 && i % 3 != 0 && i % 5 != 0
    ensures i % 17 == 0
  {
    if i < 16 {
      SmallFactor(d, i);
    } else {
      if d >= 16 {
        ProductGrows(d, i);
      }
      assert d == 1 || d == 2 || d == 3 || d == 4 || d == 5 || d == 6 || d == 7 || d == 8 || d == 9 || d == 10
        || d == 11 || d == 12 || d == 13 || d == 14 || d == 15;
    }
  }

  lemma ProductGrows(d: nat, i: nat)
    requires d >= 16 && i >= 16
    ensures d * i >= 256
  {
    assert (d - 16) * (i - 16) >= 0;
    assert (d - 16) * (i - 16) == d * i - 16 * d - 16 * i + 256;
  }

  lemma SmallFactor(d: nat, i: nat)
    requires d * i == 255 && 1 < i < 16
    ensures i % 3 == 0 || i % 5 == 0
  {
    assert i == 2 || i == 3 || i == 4 || i == 5 || i == 6 || i == 7 || i == 8 || i == 9 || i == 10
      || i == 11 || i == 12 || i == 13 || i == 14 || i == 15;
  }

  /** α has order 255. */
  lemma {:induction false} Order(n: nat)
    requires 0 < n < 255
    ensures Pow(n) != 1
  {
    hide Xor, Mul, Pow;
    PowValues();
    if Pow(n) == 1 {
      var d, i, j := Euclid(255, n);
      assert i != 1;
      var k := ProperDivisor(d, i);
      PowMultiple(d, k);
    }
  }

  lemma {:induction false} PowInjective(i: nat, j: nat)
    requires i < 255 && j < 255 && Pow(i) == Pow(j)
    ensures i == j
  {
    hide Xor, Mul, Pow;
    var low, high := if i < j then i else j, if i < j then j else i;
    PowCancel(low, high);
    if low < high {
      Order(high - low);
    }
  }

  // ---- Every nonzero byte is a power of α ----

  ghost function Powers(n: nat): set<int> {
    if n == 0 then {} else Powers(n - 1) + {Pow(n - 1)}
  }

  ghost function UpTo(n: nat): set<int> {
    if n == 0 then {} else UpTo(n - 1) + {n}
  }

  lemma {:induction false} UpToSize(n: nat)
    ensures |UpTo(n)| == n && forall x :: x in UpTo(n) <==> 1 <= x <= n
  {
    if n > 0 {
      UpToSize(n - 1);
    }
  }

  lemma {:induction false} InPowers(n: nat, x: int) returns (i: nat)
    requires x in Powers(n)
    ensures i < n && Pow(i) == x
  {
    hide Pow;
    if x in Powers(n - 1) {
      i := InPowers(n - 1, x);
    } else {
      i := n - 1;
    }
  }

  lemma {:induction false} PowersSize(n: nat)
    requires n <= 255
    ensures |Powers(n)| == n && Powers(n) <= UpTo(255)
  {
    hide Xor, Mul, Pow, UpTo;
    if n > 0 {
      PowersSize(n - 1);
      PowNonzero(n - 1);
      UpToSize(255);
      if Pow(n - 1) in Powers(n - 1) {
        var i := InPowers(n - 1, Pow(n - 1));
        PowInjective(i, n - 1);
      }
    }
  }

  lemma EveryByteIsAPower(a: byte) returns (i: nat)
    requires a != 0
    ensures i < 255 && Pow(i) == a
  {
    hide Xor, Mul, Pow;
    PowersSize(255);
    UpToSize(255);
    assert UpTo(255) - Powers(255) == {} by {
      assert |UpTo(255) - Powers(255)| == |UpTo(255)| - |Powers(255)|;
    }
    assert a in UpTo(255);
    i := InPowers(255, a);
  }

  /** GF(256) has no zero divisors. */
  lemma {:induction false} NoZeroDivisors(a: byte, b: byte)
    requires Mul(a, b) == 0
    ensures a == 0 || b == 0
  {
    hide Xor, Mul, Pow;
    if a != 0 && b != 0 {
      var i := EveryByteIsAPower(a);
      var j := EveryByteIsAPower(b);
      PowAdd(i, j);
      PowPeriod(i + j);
      PowNonzero((i + j) % 255);
    }
  }

  lemma {:induction false} PowPeriod(n: nat)
    ensures Pow(n) == Pow(n % 255)
  {
    hide Xor, Mul, Pow;
    if n >= 255 {
      PowValues();
      PowAdd(255, n - 255);
      MulOne(Pow(n - 255));
      PowPeriod(n - 255);
    }
  }
}
