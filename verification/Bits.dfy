/**
  Bitwise operations on natural numbers of any width, defined one binary digit at a time.

  Every word in the project (bytes, 32-bit halves, 64-bit words, BigInts) is a natural
  number, so that the word arithmetic of the sources (sums, carries, shifts written as
  products and quotients by powers of two) and their bitwise operators meet in one theory.
 */
module Bits {

  type byte = x: int | 0 <= x < 256

  function Pow2(k: nat): (p: nat)
    ensures p > 0
  {
    if k == 0 then 1 else 2 * Pow2(k - 1)
  }

  /** Exclusive or. */
  function Xor(a: nat, b: nat): nat
    decreases a + b
  {
    if a == 0 && b == 0 then 0
    else (if a % 2 == b % 2 then 0 else 1) + 2 * Xor(a / 2, b / 2)
  }

  /** Inclusive or. */
  function Or(a: nat, b: nat): nat
    decreases a + b
  {
    if a == 0 && b == 0 then 0
    else (if a % 2 == 1 || b % 2 == 1 then 1 else 0) + 2 * Or(a / 2, b / 2)
  }

  /** Logical shift right: drop k binary digits. */
  function Shr(a: nat, k: nat): nat {
    if k == 0 then a else Shr(a, k - 1) / 2
  }

  // ---- Exclusive or is the addition of a vector space over GF(2) ----

  lemma {:induction false} XorZero(a: nat)
    ensures Xor(a, 0) == a && Xor(0, a) == a
  {
    if a != 0 {
      XorZero(a / 2);
    }
  }

  lemma {:induction false} XorSelf(a: nat)
    ensures Xor(a, a) == 0
  {
    if a != 0 {
      XorSelf(a / 2);
    }
  }

  lemma {:induction false} XorCommutes(a: nat, b: nat)
    ensures Xor(a, b) == Xor(b, a)
    decreases a + b
  {
    if a != 0 || b != 0 {
      XorCommutes(a / 2, b / 2);
    }
  }

  /** The digits of an exclusive or. */
  lemma {:induction false} XorDigits(a: nat, b: nat)
    ensures Xor(a, b) % 2 == (if a % 2 == b % 2 then 0 else 1)
    ensures Xor(a, b) / 2 == Xor(a / 2, b / 2)
  {
  }

  lemma {:induction false} XorAssociates(a: nat, b: nat, c: nat)
    ensures Xor(Xor(a, b), c) == Xor(a, Xor(b, c))
    decreases a + b + c
  {
    if a != 0 || b != 0 || c != 0 {
      var x, y := Xor(a, b), Xor(b, c);
      XorDigits(a, b);
      XorDigits(b, c);
      XorAssociates(a / 2, b / 2, c / 2);
      SameDigits(Xor(x, c), Xor(a, y)) by {
        XorDigits(x, c);
        XorDigits(a, y);
      }
    }
  }

  lemma SameDigits(x: nat, y: nat)
    requires x % 2 == y % 2 && x / 2 == y / 2
    ensures x == y
  {
  }

  /** (a + b) + (c + d) == (a + c) + (b + d), the regrouping every linearity proof needs. */
  lemma {:induction false} XorSwap(a: nat, b: nat, c: nat, d: nat)
    ensures Xor(Xor(a, b), Xor(c, d)) == Xor(Xor(a, c), Xor(b, d))
  {
    XorAssociates(Xor(a, b), c, d);
    XorAssociates(a, b, c);
    XorCommutes(b, c);
    XorAssociates(a, c, b);
    XorAssociates(Xor(a, c), b, d);
  }

  /** Adding the same thing twice is adding nothing. */
  lemma {:induction false} XorCancel(a: nat, b: nat)
    ensures Xor(Xor(a, b), b) == a && Xor(a, Xor(a, b)) == b
  {
    XorAssociates(a, b, b);
    XorAssociates(a, a, b);
    XorSelf(a);
    XorSelf(b);
    XorZero(a);
    XorZero(b);
  }

  lemma {:induction false} XorIsZero(a: nat, b: nat)
    ensures Xor(a, b) == 0 <==> a == b
  {
    XorSelf(a);
    XorCancel(a, b);
    XorZero(b);
  }

  // ---- Words side by side ----

  lemma XorDouble(s: nat, t: nat, x: nat, y: nat)
    requires s < 2 && t < 2
    ensures Xor(s + 2 * x, t + 2 * y) == (if s == t then 0 else 1) + 2 * Xor(x, y)
  {
    XorDigits(s + 2 * x, t + 2 * y);
  }

  lemma {:induction false} XorBits(s: nat, t: nat)
    requires s < 2 && t < 2
    ensures Xor(s, t) == if s == t then 0 else 1
  {
    XorDigits(s, t);
  }

  /** Bitwise operations act on the low k digits and on the rest separately. */
  lemma {:induction false} XorSplit(a: nat, b: nat, c: nat, d: nat, k: nat)
    requires a < Pow2(k) && b < Pow2(k)
    ensures Xor(a, b) < Pow2(k)
    ensures Xor(a + Pow2(k) * c, b + Pow2(k) * d) == Xor(a, b) + Pow2(k) * Xor(c, d)
  {
    ShiftIsProduct(c, k);
    ShiftIsProduct(d, k);
    ShiftIsProduct(Xor(c, d), k);
    XorShifted(a, b, c, d, k);
  }

  function Shift(c: nat, k: nat): nat {
    if k == 0 then c else 2 * Shift(c, k - 1)
  }

  lemma {:induction false} ShiftIsProduct(c: nat, k: nat)
    ensures Shift(c, k) == Pow2(k) * c
  {
    if k > 0 {
      ShiftIsProduct(c, k - 1);
      DoubleProduct(Pow2(k - 1), c);
    }
  }

  lemma ProductMonotone(p: nat, q: nat, h: nat)
    requires q <= h
    ensures p * q <= p * h
  {
    assert p * (h - q) >= 0;
  }

  lemma DoubleProduct(p: nat, c: nat)
    ensures (2 * p) * c == 2 * (p * c)
  {
  }

  lemma ShiftNext(c: nat, k: nat)
    requires k > 0
    ensures Shift(c, k) == 2 * Shift(c, k - 1) && Pow2(k) == 2 * Pow2(k - 1)
  {
  }

  lemma {:induction false} XorShifted(a: nat, b: nat, c: nat, d: nat, k: nat)
    requires a < Pow2(k) && b < Pow2(k)
    ensures Xor(a, b) < Pow2(k)
    ensures Xor(a + Shift(c, k), b + Shift(d, k)) == Xor(a, b) + Shift(Xor(c, d), k)
    decreases k
  {
    hide Xor, Shift, Pow2;
    if k == 0 {
      XorUnshifted(a, b, c, d);
    } else {
      ShiftNext(c, k);
      ShiftNext(d, k);
      ShiftNext(Xor(c, d), k);
      XorShifted(a / 2, b / 2, c, d, k - 1);
      XorHigher(a, b, Shift(c, k - 1), Shift(d, k - 1), Shift(Xor(c, d), k - 1));
      BelowTwice(Xor(a / 2, b / 2), Xor(a, b), Pow2(k - 1));
    }
  }

  lemma XorUnshifted(a: nat, b: nat, c: nat, d: nat)
    requires a < Pow2(0) && b < Pow2(0)
    ensures Xor(a, b) < Pow2(0) && Xor(a + Shift(c, 0), b + Shift(d, 0)) == Xor(a, b) + Shift(Xor(c, d), 0)
  {
    assert a == 0 && b == 0;
    assert Xor(0, 0) == 0;
  }

  lemma BelowTwice(half: nat, whole: nat, p: nat)
    requires half < p && whole <= 2 * half + 1
    ensures whole < 2 * p
  {
  }

  lemma XorHigher(a: nat, b: nat, x: nat, y: nat, z: nat)
    requires Xor(a / 2 + x, b / 2 + y) == Xor(a / 2, b / 2) + z
    ensures Xor(a, b) == (if a % 2 == b % 2 then 0 else 1) + 2 * Xor(a / 2, b / 2)
    ensures Xor(a + 2 * x, b + 2 * y) == Xor(a, b) + 2 * z
  {
    XorDouble(a % 2, b % 2, a / 2, b / 2);
    XorDouble(a % 2, b % 2, a / 2 + x, b / 2 + y);
  }

  /** A disjunction of numbers that share no digit position is their sum. */
  lemma {:induction false} OrDisjoint(a: nat, c: nat, k: nat)
    requires a < Pow2(k)
    ensures Or(a, Pow2(k) * c) == a + Pow2(k) * c == Or(Pow2(k) * c, a)
    decreases k
  {
    if k == 0 {
      OrZero(c);
    } else {
      var p := Pow2(k - 1);
      DoubleProduct(p, c);
      OrDisjoint(a / 2, c, k - 1);
    }
  }

  lemma {:induction false} OrZero(c: nat)
    ensures Or(0, c) == c == Or(c, 0)
  {
    if c != 0 {
      OrZero(c / 2);
    }
  }

  lemma DivModUnique(n: nat, p: nat, q: nat, r: nat)
    requires r < p && n == r + p * q
    ensures n / p == q && n % p == r
  {
    var q', r' := n / p, n % p;
    assert p * (q - q') == r' - r && p * (q' - q) == r - r' by {
      assert n == p * q' + r';
    }
    if q > q' {
      AtLeastOnce(p, q - q');
    } else if q < q' {
      AtLeastOnce(p, q' - q);
    }
  }

  lemma AtLeastOnce(p: nat, d: nat)
    requires d >= 1
    ensures p * d >= p
  {
  }

  lemma Pow2Values()
    ensures Pow2(7) == 128 && Pow2(8) == 0x100 && Pow2(16) == 0x1_0000 && Pow2(24) == 0x100_0000
    ensures Pow2(31) == 0x8000_0000 && Pow2(32) == 0x1_0000_0000
  {
    assert Pow2(8) == 0x100;
    assert Pow2(16) == 0x1_0000;
    assert Pow2(24) == 0x100_0000;
  }

  /** Exclusive or of bytes. */
  function XorByte(a: byte, b: byte): (r: byte)
    ensures r == Xor(a, b)
  {
    Pow2Values();
    XorSplit(a, b, 0, 0, 8);
    Xor(a, b)
  }
}
