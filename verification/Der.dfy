/**
 * ECDSA signatures from raw to DER (extension/webauthn.js), with a reader of the two INTEGERs of a SEQUENCE.
 */
module Der {
  import opened Bits
  import opened Bytes
  import opened Wrappers

  /** The first position with a non-zero byte, but never past the last byte. */
  function LeadingZeros(s: seq<byte>): (i: nat)
    ensures i == 0 || i < |s|
    ensures forall k :: 0 <= k < i ==> s[k] == 0
    ensures s != [] ==> i == |s| - 1 || s[i] != 0
  {
    if |s| <= 1 || s[0] != 0 then 0
    else
      var j := LeadingZeros(s[1..]);
      assert forall k :: 0 < k < j + 1 ==> s[k] == s[1..][k - 1];
      1 + j
  }

  function Stripped(s: seq<byte>): seq<byte> {
    s[LeadingZeros(s)..]
  }

  /** The content of the INTEGER: no superfluous zero, and a zero in front of a byte that would look negative. */
  function Content(s: seq<byte>): seq<byte> {
    var v := Stripped(s);
    if v != [] && v[0] >= 128 then [0] + v else v
  }

  /** The length is stored in one byte, and so modulo 256. */
  method DerInteger(bytes: seq<byte>) returns (r: seq<byte>)
    ensures r == [2, |Content(bytes)| % 256] + Content(bytes)
  {
    var i := 0;
    while i < |bytes| - 1 && bytes[i] == 0
      invariant 0 <= i && (i == 0 || i < |bytes|)
      invariant forall k :: 0 <= k < i ==> bytes[k] == 0
      decreases |bytes| - i
    {
      i := i + 1;
    }
    ghost var j := LeadingZeros(bytes);
    assert i == j;
    var v := bytes[i..];
    if |v| > 0 && v[0] >= 128 {
      v := [0] + v;
    }
    r := [2, |v| % 256] + v;
  }

  datatype Signature = Signature(r: nat, s: nat)

  /** Minimal contents of a non-negative INTEGER, as DER demands. */
  predicate Minimal(c: seq<byte>) {
    c != [] && c[0] < 128 && (c[0] == 0 && |c| > 1 ==> c[1] >= 128)
  }

  /** One INTEGER of at most 127 bytes, and what follows it. */
  function ReadInteger(s: seq<byte>): Option<(nat, seq<byte>)> {
    if |s| < 2 || s[0] != 2 || s[1] > 127 || |s| < 2 + s[1] || !Minimal(s[2..2 + s[1]]) then None
    else Some((BeNat(s[2..2 + s[1]]), s[2 + s[1]..]))
  }

  /** A SEQUENCE of two INTEGERs and nothing else. */
  function ReadSignature(s: seq<byte>): Option<Signature> {
    if |s| < 2 || s[0] != 0x30 || s[1] > 127 || |s| != 2 + s[1] then None
    else
      match ReadInteger(s[2..])
      case None => None
      case Some(r) =>
        match ReadInteger(r.1)
        case None => None
        case Some(t) => if t.1 == [] then Some(Signature(r.0, t.0)) else None
  }

  lemma {:induction false} ContentValue(bytes: seq<byte>)
    requires bytes != []
    ensures BeNat(Content(bytes)) == BeNat(bytes) && Minimal(Content(bytes)) && |Content(bytes)| <= |bytes| + 1
  {
    hide BeNat;
    var i := LeadingZeros(bytes);
    assert bytes == Zeros(i) + bytes[i..];
    ZerosInFront(i, bytes[i..]);
    assert [0] + bytes[i..] == Zeros(1) + bytes[i..];
    ZerosInFront(1, bytes[i..]);
  }

  /** The INTEGER is read back exactly if its content has at most 127 bytes, the longest that a one-byte length can tell. */
  lemma {:induction false} IntegerBack(bytes: seq<byte>, rest: seq<byte>)
    requires bytes != []
    ensures ReadInteger([2, |Content(bytes)| % 256] + Content(bytes) + rest) == Some((BeNat(bytes), rest)) <==> |Content(bytes)| <= 127
  {
    hide BeNat, Content, Minimal;
    ContentValue(bytes);
    var c := Content(bytes);
    var s := [2, |c| % 256] + c + rest;
    if |c| <= 127 {
      assert s[2..2 + |c|] == c && s[2 + |c|..] == rest;
    } else if |c| % 256 <= 127 {
      assert |s[2 + |c| % 256..]| > |rest|;
    }
  }

  /** The signature that a verifier reads is the two halves of the raw one, as big-endian numbers. */
  method RawSigToDer(raw: seq<byte>) returns (der: Option<seq<byte>>)
    ensures der.Some? <==> |raw| == 64
    ensures der.Some? ==> |der.value| <= 72 && ReadSignature(der.value) == Some(Signature(BeNat(raw[..32]), BeNat(raw[32..])))
  {
    hide BeNat, Content, ReadInteger;
    if |raw| != 64 {
      return None;
    }
    var r := DerInteger(raw[..32]);
    var s := DerInteger(raw[32..]);
    ContentValue(raw[..32]);
    ContentValue(raw[32..]);
    IntegerBack(raw[..32], s);
    IntegerBack(raw[32..], []);
    assert s + [] == s;
    var body := r + s;
    var all := [0x30, |body|] + body;
    assert all[2..] == body;
    der := Some(all);
  }

  lemma {:induction false} SameValueSameBytes(a: seq<byte>, b: seq<byte>)
    requires |a| == |b| && BeNat(a) == BeNat(b)
    ensures a == b
  {
    if a != [] {
      var n := |a| - 1;
      assert (BeNat(a[..n]) * 256 + a[n]) % 256 == a[n] && (BeNat(b[..n]) * 256 + b[n]) % 256 == b[n];
      SameValueSameBytes(a[..n], b[..n]);
      assert a == a[..n] + [a[n]] && b == b[..n] + [b[n]];
    }
  }

  /** The signature a verifier reads determines the raw signature. */
  lemma SignatureDetermines(a: seq<byte>, b: seq<byte>)
    requires |a| == |b| == 64 && BeNat(a[..32]) == BeNat(b[..32]) && BeNat(a[32..]) == BeNat(b[32..])
    ensures a == b
  {
    hide BeNat;
    SameValueSameBytes(a[..32], b[..32]);
    SameValueSameBytes(a[32..], b[32..]);
    assert a == a[..32] + a[32..] && b == b[..32] + b[32..];
  }
}
