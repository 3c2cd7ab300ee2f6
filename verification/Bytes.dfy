/** Byte strings as numbers and as parts. */
module Bytes {
  import opened Bits

  /** The big-endian number. */
  function BeNat(s: seq<byte>): nat {
    if s == [] then 0 else BeNat(s[..|s| - 1]) * 256 + s[|s| - 1]
  }

  function Zeros(k: nat): (r: seq<byte>)
    ensures |r| == k && forall j :: 0 <= j < k ==> r[j] == 0
  {
    seq(k, _ => 0)
  }

  lemma {:induction false} ZerosInFront(k: nat, s: seq<byte>)
    ensures BeNat(Zeros(k) + s) == BeNat(s)
    decreases |s|, k
  {
    var t := Zeros(k) + s;
    if s != [] {
      assert t[..|t| - 1] == Zeros(k) + s[..|s| - 1];
      ZerosInFront(k, s[..|s| - 1]);
    } else if k > 0 {
      assert t[..|t| - 1] == Zeros(k - 1) + s;
      ZerosInFront(k - 1, s);
    } else {
      assert t == s;
    }
  }

  function Flatten(parts: seq<seq<byte>>): seq<byte> {
    if |parts| == 0 then [] else Flatten(parts[..|parts| - 1]) + parts[|parts| - 1]
  }

  lemma {:induction false} FlattenFirst(first: seq<byte>, more: seq<seq<byte>>)
    ensures Flatten([first] + more) == first + Flatten(more)
  {
    var all := [first] + more;
    if more == [] {
      assert all[..0] == [] && Flatten(all[..0]) == [];
    } else {
      FlattenFirst(first, more[..|more| - 1]);
      assert all[..|all| - 1] == [first] + more[..|more| - 1];
    }
  }

  /** Little-endian value of a byte string. */
  function LeNat(bytes: seq<byte>): nat {
    if |bytes| == 0 then 0 else bytes[0] + 256 * LeNat(bytes[1..])
  }

  function Pow256(n: nat): (p: nat)
    ensures p > 0
  {
    if n == 0 then 1 else 256 * Pow256(n - 1)
  }

  lemma {:induction false} LeNatBound(bytes: seq<byte>)
    ensures LeNat(bytes) < Pow256(|bytes|)
    ensures Pow256(4) == 0x1_0000_0000 && Pow256(8) == 0x1_0000_0000_0000_0000
  {
    if |bytes| > 0 {
      LeNatBound(bytes[1..]);
    }
    assert Pow256(4) == 0x1_0000_0000;
  }

  lemma {:induction false} LeNatConcat(a: seq<byte>, b: seq<byte>)
    ensures LeNat(a + b) == LeNat(a) + Pow256(|a|) * LeNat(b)
  {
    if |a| == 0 {
      assert a + b == b;
    } else {
      LeNatConcat(a[1..], b);
      assert (a + b)[1..] == a[1..] + b;
      assert 256 * (Pow256(|a| - 1) * LeNat(b)) == Pow256(|a|) * LeNat(b);
    }
  }

  /** Little-endian 32-bit encoding; larger numbers wrap. */
  function Le32(n: nat): (r: seq<byte>)
    ensures |r| == 4
  {
    [n % 256, n / 256 % 256, n / 0x1_0000 % 256, n / 0x100_0000 % 256]
  }
}
