/**
  The Reed-Solomon encoder of web/qr.js: logarithm tables, the generator polynomial and the
  shift-register division that produces the error correction codewords.

  Polynomials are sequences of bytes, highest coefficient first, as in the source. The
  reference is evaluation by Horner's rule in GF(256).
 */
module ReedSolomon {
  import opened Bits
  import opened Bytes
  import opened Gf256

  type Poly = seq<byte>

  /** The value of p at x. */
  function Eval(p: Poly, x: byte): byte {
    if |p| == 0 then 0 else XorByte(Mul(Eval(p[..|p| - 1], x), x), p[|p| - 1])
  }

  // ---- Polynomial arithmetic ----

  function Plus(p: Poly, q: Poly): (r: Poly)
    requires |p| == |q|
    ensures |r| == |p|
  {
    seq(|p|, i requires 0 <= i < |p| => XorByte(p[i], q[i]))
  }

  function Scale(c: byte, p: Poly): (r: Poly)
    ensures |r| == |p|
  {
    seq(|p|, i requires 0 <= i < |p| => Mul(c, p[i]))
  }

  lemma {:induction false} EvalPlus(p: Poly, q: Poly, x: byte)
    requires |p| == |q|
    ensures Eval(Plus(p, q), x) == XorByte(Eval(p, x), Eval(q, x))
  {
    hide Xor, Mul;
    if |p| == 0 {
      XorZero(0);
    } else {
      var n := |p| - 1;
      EvalPlus(p[..n], q[..n], x);
      assert Plus(p, q)[..n] == Plus(p[..n], q[..n]);
      MulDistributesLeft(x, Eval(p[..n], x), Eval(q[..n], x));
      XorSwap(Mul(Eval(p[..n], x), x), Mul(Eval(q[..n], x), x), p[n], q[n]);
    }
  }

  lemma {:induction false} EvalScale(c: byte, p: Poly, x: byte)
    ensures Eval(Scale(c, p), x) == Mul(c, Eval(p, x))
  {
    hide Xor, Mul;
    if |p| == 0 {
      MulZero(c);
    } else {
      var n := |p| - 1;
      EvalScale(c, p[..n], x);
      assert Scale(c, p)[..n] == Scale(c, p[..n]);
      MulAssociates(c, Eval(p[..n], x), x);
      MulDistributes(c, Mul(Eval(p[..n], x), x), p[n]);
    }
  }

  /** Appending a zero multiplies by x. */
  lemma {:induction false} EvalShift(p: Poly, x: byte)
    ensures Eval(p + [0], x) == Mul(Eval(p, x), x)
  {
    hide Xor, Mul;
    assert (p + [0])[..|p|] == p;
    XorZero(Mul(Eval(p, x), x));
  }

  lemma {:induction false} EvalZeros(n: nat, p: Poly, x: byte)
    ensures Eval(Zeros(n) + p, x) == Eval(p, x)
    decreases n + |p|
  {
    hide Xor, Mul;
    if |p| == 0 {
      assert Zeros(n) + p == Zeros(n);
      if n > 0 {
        assert Zeros(n)[..n - 1] == Zeros(n - 1) + p;
        EvalZeros(n - 1, p, x);
        MulZero(x);
        XorZero(0);
      }
    } else {
      var m := |p| - 1;
      assert (Zeros(n) + p)[..n + m] == Zeros(n) + p[..m];
      EvalZeros(n, p[..m], x);
    }
  }

  // ---- The generator polynomial ----

  /** g(x) · (x + r). */
  function TimesLinear(g: Poly, r: byte): (h: Poly)
    ensures |h| == |g| + 1
  {
    Plus(g + [0], [0] + Scale(r, g))
  }

  /** (x + α^0)(x + α^1)...(x + α^(degree - 1)). */
  function Generator(degree: nat): (g: Poly)
    ensures |g| == degree + 1
  {
    if degree == 0 then [1] else TimesLinear(Generator(degree - 1), Pow(degree - 1))
  }

  lemma {:induction false} EvalTimesLinear(g: Poly, r: byte, x: byte)
    ensures Eval(TimesLinear(g, r), x) == Mul(Eval(g, x), XorByte(x, r))
  {
    hide Xor, Mul;
    EvalPlus(g + [0], [0] + Scale(r, g), x);
    EvalShift(g, x);
    assert Zeros(1) == [0];
    EvalZeros(1, Scale(r, g), x);
    EvalScale(r, g, x);
    MulDistributes(Eval(g, x), x, r);
    MulCommutes(r, Eval(g, x));
  }

  lemma LinearHead(g: Poly, r: byte)
    requires |g| > 0
    ensures TimesLinear(g, r)[0] == g[0]
  {
    hide Xor, Mul;
    XorZero(g[0]);
    assert (g + [0])[0] == g[0] && ([0] + Scale(r, g))[0] == 0;
  }

  /** The generator is monic and vanishes at α^0 ... α^(degree - 1). */
  lemma {:induction false} GeneratorRoots(degree: nat, i: nat)
    ensures Generator(degree)[0] == 1
    ensures i < degree ==> Eval(Generator(degree), Pow(i)) == 0
  {
    hide Xor, Mul, Pow, Eval, TimesLinear;
    if degree > 0 {
      var g, r := Generator(degree - 1), Pow(degree - 1);
      GeneratorRoots(degree - 1, i);
      LinearHead(g, r);
      if i < degree {
        EvalTimesLinear(g, r, Pow(i));
        XorSelf(r);
        MulZero(Eval(g, Pow(i)));
        MulZero(XorByte(Pow(i), r));
      }
    }
  }

  // ---- The shift register ----

  /** One step of the division: shift b in, and cancel the leading term with the generator. */
  function Step(rem: Poly, b: byte, gen: Poly): (r: Poly)
    requires |gen| == |rem| + 1 && |rem| > 0
    ensures |r| == |rem|
  {
    Plus(rem[1..] + [0], Scale(XorByte(b, rem[0]), gen[1..]))
  }

  /** The register after all of data has been shifted through. */
  function Remainder(data: seq<byte>, degree: nat): (r: Poly)
    requires degree > 0
    ensures |r| == degree
  {
    if |data| == 0 then Zeros(degree)
    else Step(Remainder(data[..|data| - 1], degree), data[|data| - 1], Generator(degree))
  }

  /** x · (data · x^degree + rem) + factor · generator is the next data · x^degree + rem. */
  lemma StepIsDivision(data: seq<byte>, rem: Poly, b: byte, gen: Poly)
    requires |gen| == |rem| + 1 && |rem| > 0 && gen[0] == 1
    ensures data + [b] + Step(rem, b, gen)
         == Plus(data + rem + [0], Zeros(|data|) + Scale(XorByte(b, rem[0]), gen))
  {
    hide Mul, Xor;
    var f := XorByte(b, rem[0]);
    var n := |data|;
    var left, right := data + [b] + Step(rem, b, gen), Plus(data + rem + [0], Zeros(n) + Scale(f, gen));
    forall i | 0 <= i < |left| ensures left[i] == right[i] {
      if i < n {
        XorZero(data[i]);
      } else if i == n {
        MulOne(f);
        MulCommutes(f, 1);
        XorCommutes(b, rem[0]);
        XorCancel(rem[0], b);
      } else {
        assert (rem[1..] + [0])[i - n - 1] == (data + rem + [0])[i];
      }
    }
  }

  /**
    Every codeword data + Remainder(data) vanishes at each root α^0 ... α^(degree - 1) of the
    generator: it is a multiple of the generator polynomial.
   */
  lemma {:induction false} CodewordVanishes(data: seq<byte>, degree: nat, i: nat)
    requires i < degree
    ensures Eval(data + Remainder(data, degree), Pow(i)) == 0
  {
    hide Xor, Mul, Pow;
    var x := Pow(i);
    if |data| == 0 {
      assert data + Zeros(degree) == Zeros(degree) + [];
      EvalZeros(degree, [], x);
    } else {
      var n := |data| - 1;
      var init, b, gen := data[..n], data[n], Generator(degree);
      var rem := Remainder(init, degree);
      var f := XorByte(b, rem[0]);
      CodewordVanishes(init, degree, i);
      GeneratorRoots(degree, i);
      assert data == init + [b];
      StepIsDivision(init, rem, b, gen);
      EvalPlus(init + rem + [0], Zeros(n) + Scale(f, gen), x);
      EvalShift(init + rem, x);
      EvalZeros(n, Scale(f, gen), x);
      EvalScale(f, gen, x);
      MulZero(x);
      MulZero(f);
      XorZero(0);
    }
  }

  // ---- Minimum distance ----

  /** The number of nonzero coefficients. */
  function Weight(p: Poly): nat {
    if |p| == 0 then 0 else Weight(p[..|p| - 1]) + (if p[|p| - 1] == 0 then 0 else 1)
  }

  /** The number of positions where two words of equal length differ. */
  function Distance(p: Poly, q: Poly): nat
    requires |p| == |q|
  {
    if |p| == 0 then 0
    else Distance(p[..|p| - 1], q[..|q| - 1]) + (if p[|p| - 1] == q[|q| - 1] then 0 else 1)
  }

  lemma {:induction false} DistanceIsWeight(p: Poly, q: Poly)
    requires |p| == |q|
    ensures Distance(p, q) == Weight(Plus(p, q))
  {
    hide Xor;
    if |p| > 0 {
      var n := |p| - 1;
      DistanceIsWeight(p[..n], q[..n]);
      assert Plus(p, q)[..n] == Plus(p[..n], q[..n]);
      XorIsZero(p[n], q[n]);
    }
  }

  /** p(α · x): the coefficient of x^e is multiplied by α^e. */
  function Twist(p: Poly): (r: Poly)
    ensures |r| == |p|
  {
    if |p| == 0 then [] else Scale(Pow(1), Twist(p[..|p| - 1])) + [p[|p| - 1]]
  }

  lemma {:induction false} EvalTwist(p: Poly, i: nat)
    ensures Eval(Twist(p), Pow(i)) == Eval(p, Pow(i + 1))
  {
    hide Xor, Mul, Pow;
    if |p| > 0 {
      var n := |p| - 1;
      var x, a, e := Pow(i), Pow(1), Eval(p[..n], Pow(i + 1));
      EvalTwist(p[..n], i);
      assert Twist(p)[..n] == Scale(a, Twist(p[..n]));
      EvalScale(a, Twist(p[..n]), x);
      MulCommutes(a, e);
      MulAssociates(e, a, x);
      PowAdd(1, i);
    }
  }

  lemma {:induction false} TwistAt(p: Poly, j: nat)
    requires j < |p|
    ensures Twist(p)[j] == Mul(p[j], Pow(|p| - 1 - j))
  {
    hide Xor, Mul, Pow;
    var n := |p| - 1;
    if j == n {
      PowZero();
      MulCommutes(p[j], 1);
      MulOne(p[j]);
    } else {
      TwistAt(p[..n], j);
      MulCommutes(Pow(1), Mul(p[j], Pow(n - 1 - j)));
      MulAssociates(p[j], Pow(n - 1 - j), Pow(1));
      PowAdd(n - 1 - j, 1);
    }
  }

  /** Σ c_j (X_j + X_t) x^(n-1-j): it loses exactly the coefficient t of c. */
  function Strike(c: Poly, t: nat): (r: Poly)
    requires t < |c|
    ensures |r| == |c|
  {
    Plus(Twist(c), Scale(Pow(|c| - 1 - t), c))
  }

  lemma StrikeAt(c: Poly, t: nat, j: nat)
    requires t < |c| <= 255 && j < |c|
    ensures Strike(c, t)[j] == 0 <==> c[j] == 0 || j == t
  {
    hide Xor, Mul, Pow;
    var n := |c| - 1;
    var x, y := Pow(n - j), Pow(n - t);
    TwistAt(c, j);
    MulCommutes(y, c[j]);
    MulDistributes(c[j], x, y);
    XorIsZero(x, y);
    if c[j] == 0 || j == t {
      MulZero(XorByte(x, y));
      MulZero(c[j]);
    } else if Strike(c, t)[j] == 0 {
      NoZeroDivisors(c[j], XorByte(x, y));
      PowInjective(n - j, n - t);
    }
  }

  lemma {:induction false} WeightStrike(c: Poly, d: Poly, t: nat)
    requires |c| == |d| && t < |c| && c[t] != 0
    requires forall j :: 0 <= j < |c| ==> (d[j] == 0 <==> c[j] == 0 || j == t)
    ensures Weight(c) == Weight(d) + 1
  {
    var n := |c| - 1;
    if t == n {
      SameWeight(c[..n], d[..n]);
    } else {
      WeightStrike(c[..n], d[..n], t);
    }
  }

  lemma {:induction false} SameWeight(c: Poly, d: Poly)
    requires |c| == |d| && forall j :: 0 <= j < |c| ==> (d[j] == 0 <==> c[j] == 0)
    ensures Weight(c) == Weight(d)
  {
    if |c| > 0 {
      SameWeight(c[..|c| - 1], d[..|c| - 1]);
    }
  }

  lemma {:induction false} ZeroWeight(c: Poly)
    ensures Weight(c) == 0 <==> c == Zeros(|c|)
  {
    if |c| > 0 {
      var n := |c| - 1;
      ZeroWeight(c[..n]);
      assert Zeros(|c|)[..n] == Zeros(n);
      assert c == c[..n] + [c[n]];
      assert Zeros(|c|) == Zeros(n) + [0];
    }
  }

  /** The position of a nonzero coefficient. */
  lemma {:induction false} SomeNonzero(c: Poly) returns (t: nat)
    requires Weight(c) > 0
    ensures t < |c| && c[t] != 0
  {
    t := |c| - 1;
    if c[t] == 0 {
      t := SomeNonzero(c[..t]);
    }
  }

  /** A single nonzero coefficient does not vanish at any α^i. */
  lemma {:induction false} MonomialNonzero(c: Poly, t: nat, i: nat)
    requires t < |c| && c[t] != 0 && i < 255
    requires forall j :: 0 <= j < |c| && j != t ==> c[j] == 0
    ensures Eval(c, Pow(i)) != 0
  {
    hide Xor, Mul, Pow;
    var n, x := |c| - 1, Pow(i);
    if t == n {
      assert c == Zeros(n) + [c[n]];
      EvalZeros(n, [c[n]], x);
      assert [c[n]][..0] == [];
      MulZero(x);
      XorZero(c[n]);
    } else {
      MonomialNonzero(c[..n], t, i);
      XorZero(Mul(Eval(c[..n], x), x));
      PowNonzero(i);
      if Mul(Eval(c[..n], x), x) == 0 {
        NoZeroDivisors(Eval(c[..n], x), x);
      }
    }
  }

  /** A nonzero word that vanishes at d consecutive powers of α has more than d nonzero coefficients. */
  lemma {:induction false} ConsecutiveRoots(c: Poly, d: nat)
    requires |c| <= 255 && d <= 255 && Weight(c) > 0
    requires forall i :: 0 <= i < d ==> Eval(c, Pow(i)) == 0
    ensures Weight(c) > d
    decreases d
  {
    hide Xor, Mul, Pow;
    if d > 0 {
      var t := SomeNonzero(c);
      var s := Strike(c, t);
      forall j | 0 <= j < |c| ensures s[j] == 0 <==> c[j] == 0 || j == t {
        StrikeAt(c, t, j);
      }
      WeightStrike(c, s, t);
      if Weight(s) == 0 {
        ZeroWeight(s);
        MonomialNonzero(c, t, 0);
      } else {
        forall i | 0 <= i < d - 1 ensures Eval(s, Pow(i)) == 0 {
          var y := Pow(|c| - 1 - t);
          EvalPlus(Twist(c), Scale(y, c), Pow(i));
          EvalTwist(c, i);
          EvalScale(y, c, Pow(i));
          MulZero(y);
          XorZero(0);
        }
        ConsecutiveRoots(s, d - 1);
      }
    }
  }

  /**
    The purpose of the code: two different data blocks of the same length give codewords that
    differ in more than degree positions, so up to degree / 2 wrong bytes can be corrected.
   */
  lemma {:induction false} MinimumDistance(a: seq<byte>, b: seq<byte>, degree: nat)
    requires degree > 0 && |a| == |b| && |a| + degree <= 255 && a != b
    ensures Distance(a + Remainder(a, degree), b + Remainder(b, degree)) > degree
  {
    hide Xor, Mul, Pow;
    var p, q := a + Remainder(a, degree), b + Remainder(b, degree);
    var c := Plus(p, q);
    DistanceIsWeight(p, q);
    forall i | 0 <= i < degree ensures Eval(c, Pow(i)) == 0 {
      CodewordVanishes(a, degree, i);
      CodewordVanishes(b, degree, i);
      EvalPlus(p, q, Pow(i));
      XorZero(0);
    }
    ZeroWeight(c);
    PlusIsZero(p, q);
    assert p[..|a|] == a && q[..|a|] == b;
    ConsecutiveRoots(c, degree);
  }

  lemma PlusIsZero(p: Poly, q: Poly)
    requires |p| == |q|
    ensures Plus(p, q) == Zeros(|p|) ==> p == q
  {
    hide Xor;
    if Plus(p, q) == Zeros(|p|) {
      forall j | 0 <= j < |p| ensures p[j] == q[j] {
        XorIsZero(p[j], q[j]);
        assert Plus(p, q)[j] == Zeros(|p|)[j];
      }
    }
  }

  // ---- The program ----

  /** The tables GF_EXP and GF_LOG, and the encoder that uses them. */
  class Encoder {
    const exp: array<byte>
    const log: array<byte>

    ghost predicate Valid()
      reads exp, log
    {
      && exp.Length == 512 && log.Length == 256
      && (forall i :: 0 <= i < 512 ==> exp[i] == Pow(i))
      && (forall a :: 1 <= a < 256 ==> exp[log[a]] == a)
    }

    constructor ()
      ensures Valid() && fresh(exp) && fresh(log)
    {
      exp := new byte[512](_ => 0);
      log := new byte[256](_ => 0);
      new;
      FillOnePeriod(exp, log);
      FillSecondPeriod(exp);
      EveryLog(exp[..], log[..]);
    }

    static method FillOnePeriod(exp: array<byte>, log: array<byte>)
      requires exp.Length == 512 && log.Length == 256 && exp != log
      modifies exp, log
      ensures forall k :: 0 <= k < 255 ==> exp[k] == Pow(k)
      ensures forall k :: 0 <= k < 255 ==> log[Pow(k)] < 255 && exp[log[Pow(k)]] == Pow(k)
    {
      hide Xor, Pow, Mul;
      var x: int := 1;
      PowZero();
      for i := 0 to 255
        invariant x == Pow(i) && x < 256
        invariant forall k :: 0 <= k < i ==> exp[k] == Pow(k)
        invariant forall k :: 0 <= k < i ==> log[Pow(k)] < i && exp[log[Pow(k)]] == Pow(k)
      {
        exp[i] := x;
        log[x] := i;
        DoubleAndReduce(x);
        x := 2 * x;
        if x >= 0x100 {
          x := Xor(x, 0x11D);
        }
        PowAt(i + 1);
      }
    }

    static method FillSecondPeriod(exp: array<byte>)
      requires exp.Length == 512
      requires forall k :: 0 <= k < 255 ==> exp[k] == Pow(k)
      modifies exp
      ensures forall k :: 0 <= k < 255 ==> exp[k] == old(exp[k])
      ensures forall k :: 0 <= k < 512 ==> exp[k] == Pow(k)
    {
      hide Xor, Pow, Mul;
      for i := 255 to 512
        invariant forall k :: 0 <= k < 255 ==> exp[k] == old(exp[k])
        invariant forall k :: 0 <= k < i ==> exp[k] == Pow(k)
      {
        PowPeriod(i);
        PowPeriod(i - 255);
        exp[i] := exp[i - 255];
      }
    }

    static lemma EveryLog(exp: seq<byte>, log: seq<byte>)
      requires |exp| == 512 && |log| == 256
      requires forall k :: 0 <= k < 255 ==> log[Pow(k)] < 255 && exp[log[Pow(k)]] == Pow(k)
      ensures forall a :: 1 <= a < 256 ==> exp[log[a]] == a
    {
      hide Xor, Pow, Mul;
      forall a | 1 <= a < 256 ensures exp[log[a]] == a {
        var k := EveryByteIsAPower(a);
      }
    }

    /** Multiplication by adding logarithms is multiplication in GF(256). */
    function GfMul(a: byte, b: byte): (r: byte)
      requires Valid()
      reads exp, log
      ensures r == Mul(a, b)
    {
      hide Xor, Mul;
      GfMulCorrect(a, b);
      if a == 0 || b == 0 then 0 else exp[log[a] as int + log[b]]
    }

    lemma {:induction false} GfMulCorrect(a: byte, b: byte)
      requires Valid()
      ensures a == 0 || b == 0 ==> Mul(a, b) == 0
      ensures a != 0 && b != 0 ==> exp[log[a] as int + log[b]] == Mul(a, b)
    {
      hide Xor, Mul, Pow;
      MulZero(a);
      MulZero(b);
      PowAdd(log[a], log[b]);
    }

    /** Computes the generator polynomial, one linear factor at a time. */
    method RsGenerator(degree: nat) returns (g: array<byte>)
      requires Valid() && degree <= 512
      ensures g[..] == Generator(degree)
      ensures fresh(g)
    {
      hide Xor, Mul, Pow, TimesLinear;
      g := new byte[1](_ => 1);
      var i := 0;
      while i < degree
        invariant 0 <= i <= degree && g[..] == Generator(i) && fresh(g)
      {
        g := MultiplyLinear(g, exp[i]);
        i := i + 1;
      }
    }

    /** The inner loop: g times (x + r). */
    method MultiplyLinear(g: array<byte>, r: byte) returns (next: array<byte>)
      requires Valid() && g.Length > 0
      ensures next[..] == TimesLinear(g[..], r)
      ensures fresh(next)
    {
      hide Xor, Mul, Pow, TimesLinear;
      next := new byte[g.Length + 1](_ => 0);
      var j := 0;
      while j < g.Length
        invariant 0 <= j <= g.Length
        invariant forall k :: 0 <= k < j ==> next[k] == TimesLinear(g[..], r)[k]
        invariant next[j] == if j == 0 then 0 else Mul(g[j - 1], r)
        invariant forall k :: j < k < next.Length ==> next[k] == 0
      {
        next[j] := XorByte(next[j], g[j]);
        LinearAt(g[..], r, j, if j == 0 then 0 else Mul(g[j - 1], r));
        next[j + 1] := XorByte(next[j + 1], GfMul(g[j], r));
        XorZero(Mul(g[j], r));
        j := j + 1;
      }
      LinearAt(g[..], r, j, Mul(g[j - 1], r));
    }

    /** Divides data · x^degree by the generator in a shift register, in place. */
    method RsRemainder(data: seq<byte>, degree: nat) returns (rem: array<byte>)
      requires Valid() && 0 < degree <= 255
      ensures rem[..] == Remainder(data, degree)
      ensures fresh(rem)
    {
      hide Xor, Mul, Pow, Plus, Scale, XorByte;
      var gen := RsGenerator(degree);
      ghost var g := gen[..];
      rem := new byte[degree](_ => 0);
      var n := 0;
      while n < |data|
        invariant 0 <= n <= |data| && rem[..] == Remainder(data[..n], degree) && gen[..] == g
      {
        var b := data[n];
        ghost var before := rem[..];
        var factor := XorByte(b, rem[0]);
        CopyWithin(rem);
        rem[degree - 1] := 0;
        ghost var shifted := before[1..] + [0];
        assert rem[..] == shifted;
        if factor != 0 {
          Cancel(rem, gen, factor);
        } else {
          NothingToCancel(shifted, g);
        }
        assert data[..n + 1][..n] == data[..n];
        n := n + 1;
      }
      assert data[..n] == data;
    }

    /** The inner loop: cancels the leading term with factor times the generator. */
    method Cancel(rem: array<byte>, gen: array<byte>, factor: byte)
      requires Valid() && gen.Length == rem.Length + 1 && rem != gen && rem != exp && rem != log
      modifies rem
      ensures rem[..] == Plus(old(rem[..]), Scale(factor, gen[1..]))
    {
      hide Xor, Mul, Pow, XorByte;
      var i := 0;
      while i < rem.Length
        invariant 0 <= i <= rem.Length && Valid()
        invariant forall k :: 0 <= k < i ==> rem[k] == XorByte(old(rem[k]), Mul(factor, gen[k + 1]))
        invariant forall k :: i <= k < rem.Length ==> rem[k] == old(rem[k])
      {
        MulCommutes(gen[i + 1], factor);
        rem[i] := XorByte(rem[i], GfMul(gen[i + 1], factor));
        i := i + 1;
      }
    }

    /** rem.copyWithin(0, 1): moves every cell one place to the left, leaving the last as it is. */
    static method CopyWithin(a: array<byte>)
      requires a.Length > 0
      modifies a
      ensures a[..] == old(a[1..]) + [old(a[a.Length - 1])]
    {
      var i := 0;
      while i < a.Length - 1
        invariant 0 <= i < a.Length
        invariant forall k :: 0 <= k < i ==> a[k] == old(a[k + 1])
        invariant forall k :: i <= k < a.Length ==> a[k] == old(a[k])
      {
        a[i] := a[i + 1];
        i := i + 1;
      }
    }
  }

  /** The source's doubling step, on a value that may reach bit 8. */
  lemma {:induction false} DoubleAndReduce(x: byte)
    ensures Xtime(x) == if 2 * x >= 0x100 then Xor(2 * x, 0x11D) else 2 * x
  {
    hide Xor;
    if x >= 128 {
      Pow2Values();
      XorSplit(2 * (x % 128), 0x1D, 1, 1, 8);
      XorSelf(1);
    } else {
      XorZero(2 * x);
    }
  }

  lemma PowAt(i: nat)
    requires i > 0
    ensures Pow(i) == Xtime(Pow(i - 1))
  {
  }

  lemma {:induction false} LinearAt(g: Poly, r: byte, j: nat, prev: byte)
    requires j <= |g| && prev == if j == 0 then 0 else Mul(g[j - 1], r)
    ensures TimesLinear(g, r)[j] == if j == |g| then prev else XorByte(prev, g[j])
  {
    hide Xor, Mul;
    if j > 0 {
      MulCommutes(r, g[j - 1]);
    }
    XorZero(prev);
    XorCommutes(prev, (g + [0])[j]);
  }

  lemma NothingToCancel(shifted: Poly, gen: Poly)
    requires |gen| == |shifted| + 1
    ensures Plus(shifted, Scale(0, gen[1..])) == shifted
  {
    hide Xor, Mul;
    forall k | 0 <= k < |shifted| ensures Plus(shifted, Scale(0, gen[1..]))[k] == shifted[k] {
      MulZero(gen[k + 1]);
      XorZero(shifted[k]);
    }
  }
}
