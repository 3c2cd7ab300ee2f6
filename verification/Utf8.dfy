/** UTF-8 (RFC 3629, section 3), as TextEncoder writes it. */
module Utf8 {
  import opened Bits
  import opened Wrappers

  function EncodeChar(c: char): (r: seq<byte>)
    ensures 1 <= |r| <= 4
  {
    var n := c as int;
    if n < 0x80 then [n]
    else if n < 0x800 then [0xC0 + n / 0x40, 0x80 + n % 0x40]
    else if n < 0x1_0000 then [0xE0 + n / 0x1000, 0x80 + n / 0x40 % 0x40, 0x80 + n % 0x40]
    else [0xF0 + n / 0x4_0000, 0x80 + n / 0x1000 % 0x40, 0x80 + n / 0x40 % 0x40, 0x80 + n % 0x40]
  }

  function Encode(s: string): seq<byte> {
    if s == "" then [] else EncodeChar(s[0]) + Encode(s[1..])
  }

  predicate Scalar(n: int) {
    0 <= n < 0xD800 || 0xE000 <= n < 0x11_0000
  }

  predicate Tail(b: byte) {
    0x80 <= b < 0xC0
  }

  function Low(b: byte): int {
    b as int - 0x80
  }

  /** The scalar value at the start of s and its length; none for anything that is not well formed. */
  function First(s: seq<byte>): (r: Option<(char, nat)>)
    requires s != []
    ensures r.Some? ==> 1 <= r.value.1 <= |s|
  {
    var b := s[0] as int;
    if b < 0x80 then Some((b as char, 1))
    else if 0xC0 <= b < 0xE0 && |s| >= 2 && Tail(s[1]) then Check((b - 0xC0) * 0x40 + Low(s[1]), 2, 0x80)
    else if 0xE0 <= b < 0xF0 && |s| >= 3 && Tail(s[1]) && Tail(s[2]) then
      Check((b - 0xE0) * 0x1000 + Low(s[1]) * 0x40 + Low(s[2]), 3, 0x800)
    else if 0xF0 <= b < 0xF8 && |s| >= 4 && Tail(s[1]) && Tail(s[2]) && Tail(s[3]) then
      Check((b - 0xF0) * 0x4_0000 + Low(s[1]) * 0x1000 + Low(s[2]) * 0x40 + Low(s[3]), 4, 0x1_0000)
    else None
  }

  /** Neither a surrogate nor a value that a shorter form would hold. */
  function Check(n: int, length: nat, least: nat): (r: Option<(char, nat)>)
    ensures r.Some? ==> r.value.1 == length
  {
    if n >= least && Scalar(n) then Some((n as char, length)) else None
  }

  function Decode(s: seq<byte>): Option<string>
    decreases |s|
  {
    if s == [] then Some("")
    else
      match First(s)
      case None => None
      case Some(c) =>
        match Decode(s[c.1..])
        case None => None
        case Some(more) => Some([c.0] + more)
  }

  lemma Digits(n: nat)
    ensures n / 0x1000 == n / 0x40 / 0x40 && n / 0x4_0000 == n / 0x1000 / 0x40
    ensures n == n / 0x40 * 0x40 + n % 0x40
    ensures n / 0x40 == n / 0x1000 * 0x40 + n / 0x40 % 0x40
    ensures n / 0x1000 == n / 0x4_0000 * 0x40 + n / 0x1000 % 0x40
  {
  }

  lemma FirstBack(c: char, rest: seq<byte>)
    ensures First(EncodeChar(c) + rest) == Some((c, |EncodeChar(c)|))
  {
    var n := c as int;
    Digits(n);
    if n < 0x80 {
      FirstOfOne(n, rest);
    } else if n < 0x800 {
      FirstOfTwo(n, n / 0x40, n % 0x40, rest);
    } else if n < 0x1_0000 {
      FirstOfThree(n, n / 0x1000, n / 0x40 % 0x40, n % 0x40, rest);
    } else {
      FirstOfFour(n, n / 0x4_0000, n / 0x1000 % 0x40, n / 0x40 % 0x40, n % 0x40, rest);
    }
  }

  lemma FirstOfOne(n: nat, rest: seq<byte>)
    requires n < 0x80
    ensures First([n] + rest) == Some((n as char, 1))
  {
  }

  lemma FirstOfTwo(n: nat, a: nat, b: nat, rest: seq<byte>)
    requires 0x80 <= n < 0x800 && n == a * 0x40 + b && b < 0x40
    ensures First([0xC0 + a, 0x80 + b] + rest) == Some((n as char, 2))
  {
  }

  lemma FirstOfThree(n: nat, a: nat, b: nat, c: nat, rest: seq<byte>)
    requires 0x800 <= n < 0x1_0000 && Scalar(n) && n == a * 0x1000 + b * 0x40 + c && b < 0x40 && c < 0x40
    ensures First([0xE0 + a, 0x80 + b, 0x80 + c] + rest) == Some((n as char, 3))
  {
  }

  lemma FirstOfFour(n: nat, a: nat, b: nat, c: nat, d: nat, rest: seq<byte>)
    requires 0x1_0000 <= n < 0x11_0000 && n == a * 0x4_0000 + b * 0x1000 + c * 0x40 + d && b < 0x40 && c < 0x40 && d < 0x40
    ensures First([0xF0 + a, 0x80 + b, 0x80 + c, 0x80 + d] + rest) == Some((n as char, 4))
  {
  }

  /** Decoding gives back every string. */
  lemma {:induction false} DecodeEncode(s: string)
    ensures Decode(Encode(s)) == Some(s)
  {
    hide First, EncodeChar;
    if s != "" {
      FirstBack(s[0], Encode(s[1..]));
      DecodeEncode(s[1..]);
      assert Encode(s)[|EncodeChar(s[0])|..] == Encode(s[1..]);
      assert s == [s[0]] + s[1..];
    }
  }

  lemma {:induction false} EncodeInjective(s: string, t: string)
    requires Encode(s) == Encode(t)
    ensures s == t
  {
    DecodeEncode(s);
    DecodeEncode(t);
  }
}
