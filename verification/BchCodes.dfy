/**
  The BCH codes that protect format and version words (ISO/IEC 18004:2015, annexes C and D): the remainder loops of
  web/qr.js make multiples of the generator polynomial over GF(2), and those are far apart.
 */
module BchCodes {
  import opened Bits
  import opened QrPatterns

  /** The product of two polynomials over GF(2), coefficients as binary digits. */
  function ClMul(q: nat, g: nat): nat {
    if q == 0 then 0 else Xor(if q % 2 == 1 then g else 0, 2 * ClMul(q / 2, g))
  }

  lemma {:induction false} ClMulDigit(q: nat, t: nat, g: nat)
    requires t < 2
    ensures ClMul(2 * q + t, g) == Xor(if t == 1 then g else 0, 2 * ClMul(q, g))
  {
    hide Xor;
    if q == 0 && t == 0 {
      XorZero(0);
    }
  }

  lemma XorEven(a: nat, b: nat)
    ensures Xor(2 * a, 2 * b) == 2 * Xor(a, b)
  {
    hide Xor;
    XorDouble(0, 0, a, b);
  }

  /** Multiplication distributes over addition. */
  lemma {:induction false} ClMulDistributes(p: nat, q: nat, g: nat)
    ensures ClMul(Xor(p, q), g) == Xor(ClMul(p, g), ClMul(q, g))
    decreases p + q
  {
    hide Xor;
    if p == 0 {
      XorZero(q);
      XorZero(ClMul(q, g));
    } else if q == 0 {
      XorZero(p);
      XorZero(ClMul(p, g));
    } else {
      ClMulDistributes(p / 2, q / 2, g);
      XorDigits(p, q);
      var s, t := p % 2, q % 2;
      ClMulDigit(Xor(p / 2, q / 2), if s == t then 0 else 1, g);
      ClMulDigit(p / 2, s, g);
      ClMulDigit(q / 2, t, g);
      var x, y := if s == 1 then g else 0, if t == 1 then g else 0;
      XorSwap(x, 2 * ClMul(p / 2, g), y, 2 * ClMul(q / 2, g));
      XorEven(ClMul(p / 2, g), ClMul(q / 2, g));
      XorSelf(g);
      XorSelf(0);
      XorZero(g);
    }
  }

  // ---- The remainder loop ----

  lemma {:induction false} ShrIsQuotient(a: nat, k: nat)
    ensures Shr(a, k) == a / Pow2(k)
  {
    if k > 0 {
      ShrIsQuotient(a, k - 1);
      HalfQuotient(a, Pow2(k - 1));
    }
  }

  lemma HalfQuotient(a: nat, p: nat)
    requires p > 0
    ensures a / p / 2 == a / (2 * p)
  {
    var q, r := a / p / 2, a / p % 2;
    assert a == p * (a / p) + a % p && a / p == 2 * q + r;
    Regroup(p, q, r);
    DivModUnique(a, 2 * p, q, p * r + a % p);
  }

  lemma Regroup(p: nat, q: nat, r: nat)
    requires r < 2
    ensures p * (2 * q + r) == (2 * p) * q + p * r && p * r <= p
  {
    if r == 0 { } else { }
  }

  /** One step multiplies by x, and subtracts the generator if the degree has become its degree. */
  lemma StepReduces(rem: nat, top: nat, g: nat)
    requires rem < 2 * Pow2(top) && 2 * Pow2(top) <= g < 4 * Pow2(top)
    ensures Shr(rem, top) < 2
    ensures BchStep(rem, top, g) == Xor(2 * rem, if Shr(rem, top) == 1 then g else 0) < 2 * Pow2(top)
  {
    hide Xor, Shr;
    var p, t := Pow2(top), Shr(rem, top);
    ShrIsQuotient(rem, top);
    assert t < 2 && rem == p * t + rem % p by {
      DivModUnique(rem, p, if rem < p then 0 else 1, if rem < p then rem else rem - p);
    }
    assert Pow2(top + 1) == 2 * p;
    if t == 0 {
      XorZero(2 * rem);
    } else {
      XorSplit(2 * (rem - p), g - 2 * p, 1, 1, top + 1);
      XorSelf(1);
    }
  }

  /** data · x^n plus the remainder after n steps is a multiple of the generator. */
  lemma {:induction false} BchQuotient(data: nat, top: nat, g: nat, n: nat) returns (q: nat)
    requires data < 2 * Pow2(top) && 2 * Pow2(top) <= g < 4 * Pow2(top)
    ensures Bch(data, top, g, n) < 2 * Pow2(top)
    ensures ClMul(q, g) == Xor(Shift(data, n), Bch(data, top, g, n))
  {
    hide Xor, Shr, ClMul, BchStep;
    if n == 0 {
      q := 0;
      XorSelf(data);
      NoFactor(g);
    } else {
      var before := BchQuotient(data, top, g, n - 1);
      var rem := Bch(data, top, g, n - 1);
      StepReduces(rem, top, g);
      var t := Shr(rem, top);
      q := 2 * before + t;
      ClMulDigit(before, t, g);
      var x := if t == 1 then g else 0;
      XorEven(Shift(data, n - 1), rem);
      XorAssociates(2 * Shift(data, n - 1), 2 * rem, x);
      XorCommutes(x, 2 * ClMul(before, g));
    }
  }

  lemma {:induction false} NoFactor(g: nat)
    ensures ClMul(0, g) == 0
  {
  }

  /** The word of data and remainder side by side. */
  lemma {:induction false} WordIsMultiple(data: nat, top: nat, g: nat) returns (q: nat)
    requires data < 2 * Pow2(top) && 2 * Pow2(top) <= g < 4 * Pow2(top)
    ensures var p, rem := 2 * Pow2(top), Bch(data, top, g, top + 1);
            rem < p && Or(p * data, rem) == p * data + rem == ClMul(q, g)
  {
    hide Xor, Shr, ClMul, Bch, Or, Shift;
    q := BchQuotient(data, top, g, top + 1);
    var p, rem := Pow2(top + 1), Bch(data, top, g, top + 1);
    ShiftIsProduct(data, top + 1);
    OrDisjoint(rem, data, top + 1);
    XorSplit(0, rem, data, 0, top + 1);
    XorZero(rem);
    XorZero(data);
  }

  // ---- Degrees ----

  /** The degree of a product is the sum of the degrees. */
  lemma {:induction false} ProductDegree(q: nat, g: nat, k: nat, d: nat)
    requires Pow2(k) <= q < 2 * Pow2(k) && Pow2(d) <= g < 2 * Pow2(d)
    ensures Pow2(k + d) <= ClMul(q, g) < 2 * Pow2(k + d)
    decreases k
  {
    hide Xor;
    if k == 0 {
      assert q == 1;
      ClMulDigit(0, 1, g);
      NoFactor(g);
      XorZero(g);
    } else {
      ProductDegree(q / 2, g, k - 1, d);
      PowerGrows(d, k + d - 1);
      var p, c := Pow2(k + d), 2 * ClMul(q / 2, g);
      var x := if q % 2 == 1 then g else 0;
      XorSplit(x, c - p, 0, 1, k + d);
      XorZero(1);
    }
  }

  lemma {:induction false} PowerGrows(d: nat, k: nat)
    requires d <= k
    ensures Pow2(d) <= Pow2(k)
    decreases k - d
  {
    if d < k {
      PowerGrows(d, k - 1);
    }
  }

  /** A multiple below 2^(k + d) has a factor below 2^k. */
  lemma {:induction false} FactorBelow(q: nat, g: nat, k: nat, d: nat)
    requires Pow2(d) <= g < 2 * Pow2(d) && ClMul(q, g) < Pow2(k + d)
    ensures q < Pow2(k)
  {
    hide ClMul;
    if q >= Pow2(k) {
      var e := Degree(q);
      if e < k {
        PowerGrows(e + 1, k);
      }
      ProductDegree(q, g, e, d);
      PowerGrows(k + d, e + d);
    }
  }

  lemma {:induction false} Degree(q: nat) returns (e: nat)
    requires q > 0
    ensures Pow2(e) <= q < 2 * Pow2(e)
  {
    if q == 1 {
      e := 0;
    } else {
      var f := Degree(q / 2);
      e := f + 1;
    }
  }

  // ---- Distance ----

  function Weight(n: nat): nat {
    if n == 0 then 0 else n % 2 + Weight(n / 2)
  }

  /** In how many binary digits two words differ. */
  function Distance(a: nat, b: nat): nat {
    Weight(Xor(a, b))
  }

  lemma {:induction false} WeightSplit(low: nat, high: nat, k: nat)
    requires low < Pow2(k)
    ensures Weight(low + Pow2(k) * high) == Weight(low) + Weight(high)
    decreases k
  {
    if k > 0 {
      WeightSplit(low / 2, high, k - 1);
      DoubleProduct(Pow2(k - 1), high);
      var n := low + Pow2(k) * high;
      assert n / 2 == low / 2 + Pow2(k - 1) * high && n % 2 == low % 2;
    }
  }

  // ---- Words of four hexadecimal digits ----

  type nibble = x: int | 0 <= x < 16

  datatype Hex = Hex(d: nibble, c: nibble, b: nibble, a: nibble) {
    function Value(): nat {
      4096 * d + 256 * c + 16 * b + a
    }

    function Plus(w: Hex): Hex {
      Hex(XorNibble(d, w.d), XorNibble(c, w.c), XorNibble(b, w.b), XorNibble(a, w.a))
    }

    function Ones(): nat {
      NibbleWeight(d) + NibbleWeight(c) + NibbleWeight(b) + NibbleWeight(a)
    }
  }

  /** Whether the digit of weight p is set, for x below 2p. */
  function Has(x: nat, p: nat): nat {
    if x >= p then 1 else 0
  }

  function Differ(s: nat, t: nat): nat {
    if s == t then 0 else 1
  }

  function XorNibble(x: nibble, y: nibble): nibble {
    var x3, y3 := Has(x, 8), Has(y, 8);
    var x2, y2 := Has(x - 8 * x3, 4), Has(y - 8 * y3, 4);
    var x1, y1 := Has(x - 8 * x3 - 4 * x2, 2), Has(y - 8 * y3 - 4 * y2, 2);
    8 * Differ(x3, y3) + 4 * Differ(x2, y2) + 2 * Differ(x1, y1) + Differ(x - 8 * x3 - 4 * x2 - 2 * x1, y - 8 * y3 - 4 * y2 - 2 * y1)
  }

  function NibbleWeight(x: nibble): nat {
    if x == 0 then 0
    else if x == 1 || x == 2 || x == 4 || x == 8 then 1
    else if x == 7 || x == 11 || x == 13 || x == 14 then 3
    else if x == 15 then 4
    else 2
  }

  lemma {:induction false} XorOfDigits(x0: nat, x1: nat, x2: nat, x3: nat, y0: nat, y1: nat, y2: nat, y3: nat)
    requires x0 < 2 && x1 < 2 && x2 < 2 && x3 < 2 && y0 < 2 && y1 < 2 && y2 < 2 && y3 < 2
    ensures Xor(8 * x3 + 4 * x2 + 2 * x1 + x0, 8 * y3 + 4 * y2 + 2 * y1 + y0)
      == 8 * Differ(x3, y3) + 4 * Differ(x2, y2) + 2 * Differ(x1, y1) + Differ(x0, y0)
  {
    hide Xor;
    XorDouble(x0, y0, 4 * x3 + 2 * x2 + x1, 4 * y3 + 2 * y2 + y1);
    XorDouble(x1, y1, 2 * x3 + x2, 2 * y3 + y2);
    XorDouble(x2, y2, x3, y3);
    XorBits(x3, y3);
  }

  lemma {:induction false} XorOfNibbles(x: nibble, y: nibble)
    ensures Xor(x, y) == XorNibble(x, y)
  {
    hide Xor, Differ;
    var x3, y3 := Has(x, 8), Has(y, 8);
    var x2, y2 := Has(x - 8 * x3, 4), Has(y - 8 * y3, 4);
    var x1, y1 := Has(x - 8 * x3 - 4 * x2, 2), Has(y - 8 * y3 - 4 * y2, 2);
    XorOfDigits(x - 8 * x3 - 4 * x2 - 2 * x1, x1, x2, x3, y - 8 * y3 - 4 * y2 - 2 * y1, y1, y2, y3);
  }

  lemma {:induction false} WeightDouble(s: nat, n: nat)
    requires s < 2
    ensures Weight(s + 2 * n) == s + Weight(n)
  {
  }

  lemma {:induction false} WeightOfNibble(x: nibble)
    ensures Weight(x) == NibbleWeight(x)
  {
    hide Weight;
    var x3 := Has(x, 8);
    var x2 := Has(x - 8 * x3, 4);
    var x1 := Has(x - 8 * x3 - 4 * x2, 2);
    WeightDouble(x - 8 * x3 - 4 * x2 - 2 * x1, x1 + 2 * x2 + 4 * x3);
    WeightDouble(x1, x2 + 2 * x3);
    WeightDouble(x2, x3);
    WeightDouble(x3, 0);
    NoWeight();
  }

  lemma {:induction false} NoWeight()
    ensures Weight(0) == 0
  {
  }

  lemma {:induction false} XorOfHex(v: Hex, w: Hex)
    ensures Xor(v.Value(), w.Value()) == v.Plus(w).Value()
  {
    hide Xor, XorNibble;
    assert Pow2(4) == 16;
    XorSplit(v.a, w.a, v.b + 16 * v.c + 256 * v.d, w.b + 16 * w.c + 256 * w.d, 4);
    XorSplit(v.b, w.b, v.c + 16 * v.d, w.c + 16 * w.d, 4);
    XorSplit(v.c, w.c, v.d, w.d, 4);
    XorOfNibbles(v.a, w.a);
    XorOfNibbles(v.b, w.b);
    XorOfNibbles(v.c, w.c);
    XorOfNibbles(v.d, w.d);
  }

  lemma {:induction false} WeightOfHex(w: Hex)
    ensures Weight(w.Value()) == w.Ones()
  {
    hide Weight, NibbleWeight;
    assert Pow2(4) == 16;
    WeightSplit(w.a, w.b + 16 * w.c + 256 * w.d, 4);
    WeightSplit(w.b, w.c + 16 * w.d, 4);
    WeightSplit(w.c, w.d, 4);
    WeightOfNibble(w.a);
    WeightOfNibble(w.b);
    WeightOfNibble(w.c);
    WeightOfNibble(w.d);
  }

  lemma {:induction false} OneMultiple(g: nat)
    ensures ClMul(1, g) == g
  {
    hide Xor;
    ClMulDigit(0, 1, g);
    NoFactor(g);
    XorZero(g);
  }

  /** Multiplication by 2 · q + 1. */
  lemma {:induction false} OddMultiple(q: nat, n: nat, g: Hex, x: Hex, w: Hex)
    requires n == g.Value() && x.Value() == 2 * ClMul(q, n) && g.Plus(x) == w
    ensures ClMul(2 * q + 1, n) == w.Value()
    ensures Weight(w.Value()) == w.Ones()
  {
    hide Xor, Weight, ClMul, XorNibble, NibbleWeight;
    ClMulDigit(q, 1, n);
    XorOfHex(g, x);
    WeightOfHex(w);
  }

  lemma {:induction false} EvenMultiple(q: nat, g: nat)
    ensures ClMul(2 * q, g) == 2 * ClMul(q, g) && Weight(ClMul(2 * q, g)) == Weight(ClMul(q, g))
  {
    hide Xor, ClMul;
    ClMulDigit(q, 0, g);
    XorZero(2 * ClMul(q, g));
    assert Weight(2 * ClMul(q, g)) == Weight(ClMul(q, g));
  }

  // ---- The (18, 6) code of the version: its multiples of degree below 16 ----

  lemma {:induction false} VersionTimes1()
    ensures ClMul(1, 0x1F25) == 0x1F25 && Weight(0x1F25) == 8
  {
    hide Xor, ClMul, Weight;
    OneMultiple(0x1F25);
    WeightOfHex(Hex(1, 15, 2, 5));
  }

  lemma {:induction false} VersionTimes3()
    ensures ClMul(3, 0x1F25) == 0x216F && Weight(0x216F) == 8
  {
    hide Xor, ClMul, Weight;
    VersionTimes1();
    OddMultiple(1, 0x1F25, Hex(1, 15, 2, 5), Hex(3, 14, 4, 10), Hex(2, 1, 6, 15));
  }

  lemma {:induction false} VersionTimes5()
    ensures ClMul(5, 0x1F25) == 0x63B1 && Weight(0x63B1) == 8
  {
    hide Xor, ClMul, Weight;
    VersionTimes1();
    EvenMultiple(1, 0x1F25);
    OddMultiple(2, 0x1F25, Hex(1, 15, 2, 5), Hex(7, 12, 9, 4), Hex(6, 3, 11, 1));
  }

  lemma {:induction false} VersionTimes7()
    ensures ClMul(7, 0x1F25) == 0x5DFB && Weight(0x5DFB) == 12
  {
    hide Xor, ClMul, Weight;
    VersionTimes3();
    OddMultiple(3, 0x1F25, Hex(1, 15, 2, 5), Hex(4, 2, 13, 14), Hex(5, 13, 15, 11));
  }

  lemma {:induction false} VersionTimes9()
    ensures ClMul(9, 0x1F25) == 0xE60D && Weight(0xE60D) == 8
  {
    hide Xor, ClMul, Weight;
    VersionTimes1();
    EvenMultiple(1, 0x1F25);
    EvenMultiple(2, 0x1F25);
    OddMultiple(4, 0x1F25, Hex(1, 15, 2, 5), Hex(15, 9, 2, 8), Hex(14, 6, 0, 13));
  }

  lemma {:induction false} VersionTimes11()
    ensures ClMul(11, 0x1F25) == 0xD847 && Weight(0xD847) == 8
  {
    hide Xor, ClMul, Weight;
    VersionTimes5();
    OddMultiple(5, 0x1F25, Hex(1, 15, 2, 5), Hex(12, 7, 6, 2), Hex(13, 8, 4, 7));
  }

  lemma {:induction false} VersionTimes13()
    ensures ClMul(13, 0x1F25) == 0x9A99 && Weight(0x9A99) == 8
  {
    hide Xor, ClMul, Weight;
    VersionTimes3();
    EvenMultiple(3, 0x1F25);
    OddMultiple(6, 0x1F25, Hex(1, 15, 2, 5), Hex(8, 5, 11, 12), Hex(9, 10, 9, 9));
  }

  lemma {:induction false} VersionTimes15()
    ensures ClMul(15, 0x1F25) == 0xA4D3 && Weight(0xA4D3) == 8
  {
    hide Xor, ClMul, Weight;
    VersionTimes7();
    OddMultiple(7, 0x1F25, Hex(1, 15, 2, 5), Hex(11, 11, 15, 6), Hex(10, 4, 13, 3));
  }

  /** A multiple of degree below 16 has at least eight digits 1. */
  lemma {:induction false} VersionWeight(q: nat)
    requires 0 < q < 16
    ensures Weight(ClMul(q, 0x1F25)) >= 8
  {
    hide Xor, ClMul, Weight;
    if q % 2 == 0 {
      EvenMultiple(q / 2, 0x1F25);
      VersionWeight(q / 2);
    } else {
      VersionTimes1();
      VersionTimes3();
      VersionTimes5();
      VersionTimes7();
      VersionTimes9();
      VersionTimes11();
      VersionTimes13();
      VersionTimes15();
    }
  }

  // ---- The (15, 5) code of the format: its multiples of degree below 13 ----

  lemma {:induction false} FormatTimes1()
    ensures ClMul(1, 0x537) == 0x537 && Weight(0x537) == 7
  {
    hide Xor, ClMul, Weight;
    OneMultiple(0x537);
    WeightOfHex(Hex(0, 5, 3, 7));
  }

  lemma {:induction false} FormatTimes3()
    ensures ClMul(3, 0x537) == 0xF59 && Weight(0xF59) == 8
  {
    hide Xor, ClMul, Weight;
    FormatTimes1();
    OddMultiple(1, 0x537, Hex(0, 5, 3, 7), Hex(0, 10, 6, 14), Hex(0, 15, 5, 9));
  }

  lemma {:induction false} FormatTimes5()
    ensures ClMul(5, 0x537) == 0x11EB && Weight(0x11EB) == 8
  {
    hide Xor, ClMul, Weight;
    FormatTimes1();
    EvenMultiple(1, 0x537);
    OddMultiple(2, 0x537, Hex(0, 5, 3, 7), Hex(1, 4, 13, 12), Hex(1, 1, 14, 11));
  }

  lemma {:induction false} FormatTimes7()
    ensures ClMul(7, 0x537) == 0x1B85 && Weight(0x1B85) == 7
  {
    hide Xor, ClMul, Weight;
    FormatTimes3();
    OddMultiple(3, 0x537, Hex(0, 5, 3, 7), Hex(1, 14, 11, 2), Hex(1, 11, 8, 5));
  }

  /** A multiple of degree below 13 has at least seven digits 1. */
  lemma {:induction false} FormatWeight(q: nat)
    requires 0 < q < 8
    ensures Weight(ClMul(q, 0x537)) >= 7
  {
    hide Xor, ClMul, Weight;
    if q % 2 == 0 {
      EvenMultiple(q / 2, 0x537);
      FormatWeight(q / 2);
    } else {
      FormatTimes1();
      FormatTimes3();
      FormatTimes5();
      FormatTimes7();
    }
  }

  // ---- Words of the symbol ----

  /** The version word: the version in front of a multiple of the generator of degree 12. */
  lemma {:induction false} VersionWord(v: nat) returns (q: nat)
    requires v < 64
    ensures VersionBits(v) / 4096 == v
    ensures VersionBits(v) == ClMul(q, 0x1F25)
  {
    hide Xor, Shr, ClMul, Bch, Or;
    assert Pow2(11) == 2048;
    q := WordIsMultiple(v, 11, 0x1F25);
  }

  /** The format word under its fixed pattern: the mask in front of a multiple of the generator of degree 10. */
  lemma {:induction false} FormatWord(m: nat) returns (q: nat)
    requires m < 32
    ensures FormatBits(m) < 0x8000
    ensures Xor(FormatBits(m), 0x5412) / 1024 == m
    ensures Xor(FormatBits(m), 0x5412) == ClMul(q, 0x537)
  {
    hide Xor, Shr, ClMul, Bch, Or;
    assert Pow2(9) == 512;
    q := WordIsMultiple(m, 9, 0x537);
    var word := Or(1024 * m, Bch(m, 9, 0x537, 10));
    XorCancel(word, 0x5412);
    assert Pow2(15) == 0x8000 by { assert Pow2(8) == 0x100; }
    XorSplit(word, 0x5412, 0, 0, 15);
  }

  /** Two multiples differ in a multiple. */
  lemma {:induction false} SumOfMultiples(p: nat, q: nat, g: nat, k: nat, d: nat)
    requires Pow2(d) <= g < 2 * Pow2(d) && ClMul(p, g) < Pow2(k + d) && ClMul(q, g) < Pow2(k + d)
    requires ClMul(p, g) != ClMul(q, g)
    ensures 0 < Xor(p, q) < Pow2(k)
    ensures Distance(ClMul(p, g), ClMul(q, g)) == Weight(ClMul(Xor(p, q), g))
  {
    hide Xor, ClMul, Weight;
    FactorBelow(p, g, k, d);
    FactorBelow(q, g, k, d);
    XorSplit(p, q, 0, 0, k);
    XorIsZero(p, q);
    ClMulDistributes(p, q, g);
  }

  /** The words of two versions up to 15 differ in at least eight digits. */
  lemma {:induction false} VersionsApart(u: nat, v: nat)
    requires u < 16 && v < 16 && u != v
    ensures Distance(VersionBits(u), VersionBits(v)) >= 8
  {
    hide Xor, ClMul, Weight, VersionBits, Distance;
    var p := VersionWord(u);
    var q := VersionWord(v);
    Pow2Values();
    assert Pow2(12) == 4096 && Pow2(4) == 16;
    SumOfMultiples(p, q, 0x1F25, 4, 12);
    VersionWeight(Xor(p, q));
  }

  /** The format words of two masks differ in at least seven digits. */
  lemma {:induction false} FormatsApart(m: nat, n: nat)
    requires m < 8 && n < 8 && m != n
    ensures Distance(FormatBits(m), FormatBits(n)) >= 7
  {
    hide Xor, ClMul, Weight, FormatBits;
    var p := FormatWord(m);
    var q := FormatWord(n);
    assert Pow2(10) == 1024 && Pow2(3) == 8 && Pow2(13) == 8192;
    SumOfMultiples(p, q, 0x537, 3, 10);
    FormatWeight(Xor(p, q));
    XorSwap(FormatBits(m), 0x5412, FormatBits(n), 0x5412);
    XorSelf(0x5412);
    XorZero(Xor(FormatBits(m), FormatBits(n)));
  }
}
