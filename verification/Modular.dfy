/** Powers and remainders of integers. */
module Modular {
  import opened Bits

  function Power(b: int, e: nat): int {
    if e == 0 then 1 else b * Power(b, e - 1)
  }

  lemma SmallMultiple(x: int, m: int)
    requires m > 0 && -m < x * m < m
    ensures x == 0
  {
    AtLeastOnce(m, if x > 0 then x else if x < 0 then -x else 1);
  }

  lemma ModUnique(n: int, m: int, q: int, r: int)
    requires m > 0 && 0 <= r < m && n == q * m + r
    ensures n % m == r && n / m == q
  {
    var q', r' := n / m, n % m;
    assert n == q' * m + r';
    assert (q - q') * m == r' - r by { Distribute(q, q', m); }
    SmallMultiple(q - q', m);
  }

  lemma Distribute(a: int, b: int, m: int)
    ensures (a - b) * m == a * m - b * m && (a + b) * m == a * m + b * m
  {
  }

  /** Adding a multiple of the modulus changes nothing. */
  lemma ModMultiple(x: int, k: int, m: int)
    requires m > 0
    ensures (x + k * m) % m == x % m
  {
    Distribute(x / m, k, m);
    assert x == x / m * m + x % m;
    ModUnique(x + k * m, m, x / m + k, x % m);
  }

  /** Two integers with the same remainder. */
  predicate Same(a: int, b: int, m: int)
    requires m > 0
  {
    a % m == b % m
  }

  lemma SameOffset(a: int, b: int, m: int)
    requires m > 0 && Same(a, b, m)
    ensures a == b + (a / m - b / m) * m
  {
    Distribute(a / m, b / m, m);
    assert a == a / m * m + a % m;
    assert b == b / m * m + b % m;
  }

  lemma SameRemainder(a: int, m: int)
    requires m > 0
    ensures Same(a % m, a, m)
  {
    ModMultiple(a % m, a / m, m);
    assert a == a % m + a / m * m;
  }

  lemma Difference(a: int, b: int, m: int) returns (k: int)
    requires m > 0 && Same(a, b, m)
    ensures a == b + k * m
  {
    SameOffset(a, b, m);
    k := a / m - b / m;
  }

  lemma SameIfMultiple(a: int, b: int, k: int, m: int)
    requires m > 0 && a == b + k * m
    ensures Same(a, b, m)
  {
    ModMultiple(b, k, m);
  }

  lemma SameSum(a: int, b: int, c: int, d: int, m: int)
    requires m > 0 && Same(a, b, m) && Same(c, d, m)
    ensures Same(a + c, b + d, m) && Same(a - c, b - d, m)
  {
    hide Same;
    var p := Difference(a, b, m);
    var q := Difference(c, d, m);
    Distribute(p, q, m);
    SameIfMultiple(a + c, b + d, p + q, m);
    SameIfMultiple(a - c, b - d, p - q, m);
  }

  lemma Rearrange(b: int, c: int, k: int, m: int)
    ensures (b + k * m) * c == b * c + (k * c) * m
  {
  }

  lemma SameFactor(a: int, b: int, c: int, m: int)
    requires m > 0 && Same(a, b, m)
    ensures Same(a * c, b * c, m) && Same(c * a, c * b, m)
  {
    hide Same;
    var k := Difference(a, b, m);
    Rearrange(b, c, k, m);
    Commutes(a, c);
    Commutes(b, c);
    SameIfMultiple(a * c, b * c, k * c, m);
  }

  lemma Commutes(a: int, b: int)
    ensures a * b == b * a
  {
  }

  lemma Associates(a: int, b: int, c: int)
    ensures (a * b) * c == a * (b * c)
  {
  }

  lemma SameProduct(a: int, b: int, c: int, d: int, m: int)
    requires m > 0 && Same(a, b, m) && Same(c, d, m)
    ensures Same(a * c, b * d, m)
  {
    SameFactor(a, b, c, m);
    SameFactor(c, d, b, m);
  }

  lemma {:induction false} SamePower(a: int, b: int, e: nat, m: int)
    requires m > 0 && Same(a, b, m)
    ensures Same(Power(a, e), Power(b, e), m)
  {
    hide Same;
    if e > 0 {
      SamePower(a, b, e - 1, m);
      SameProduct(a, b, Power(a, e - 1), Power(b, e - 1), m);
    } else {
      assert Power(a, 0) == Power(b, 0);
      Itself(1, m);
    }
  }

  lemma Itself(a: int, m: int)
    requires m > 0
    ensures Same(a, a, m)
  {
  }

  lemma {:induction false} PowerSum(b: int, d: nat, e: nat)
    ensures Power(b, d + e) == Power(b, d) * Power(b, e)
  {
    if d > 0 {
      PowerSum(b, d - 1, e);
      Associates(b, Power(b, d - 1), Power(b, e));
      assert Power(b, d + e) == b * Power(b, d + e - 1);
    }
  }

  lemma {:induction false} PowerOfProduct(a: int, b: int, e: nat)
    ensures Power(a * b, e) == Power(a, e) * Power(b, e)
  {
    if e > 0 {
      PowerOfProduct(a, b, e - 1);
      Exchange(a, b, Power(a, e - 1), Power(b, e - 1));
    }
  }

  lemma Exchange(a: int, b: int, c: int, d: int)
    ensures (a * b) * (c * d) == (a * c) * (b * d)
  {
    Associates(a, b, c * d);
    Associates(b, c, d);
    Associates(c, b, d);
    Associates(a, c, b * d);
    Commutes(b, c);
  }

  lemma {:induction false} PowerOfPower(b: int, d: nat, e: nat)
    ensures Power(b, d * e) == Power(Power(b, d), e)
    decreases e
  {
    if e == 0 {
      assert d * e == 0;
    } else {
      PowerOfPower(b, d, e - 1);
      assert d * e == d + d * (e - 1) && d * (e - 1) >= 0;
      PowerSum(b, d, d * (e - 1));
    }
  }

  /** The step of square-and-multiply. */
  lemma {:induction false} PowerHalves(b: int, e: nat)
    ensures Power(b, e) == Power(b * b, e / 2) * (if e % 2 == 1 then b else 1)
  {
    PowerSum(b, e / 2, e / 2);
    PowerOfProduct(b, b, e / 2);
    PowerSum(b, e / 2 + e / 2, e % 2);
    assert Power(b, e % 2) == if e % 2 == 1 then b else 1;
  }
}
