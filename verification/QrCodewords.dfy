/**
  The codeword stage of web/qr.js: version choice, the byte-mode bit stream with its padding,
  and the interleaving of data and error correction blocks. A reader that follows
  ISO/IEC 18004 backwards is the partner of each step.
 */
module QrCodewords {
  import opened Bits
  import opened Bytes
  import opened Sequences
  import opened Wrappers
  import RS = ReedSolomon

  type bit = x: int | 0 <= x < 2


  // ---- Version tables (level M) ----

  datatype Version = Version(total: nat, ecc: nat, g1n: nat, g1d: nat, g2n: nat, g2d: nat)

  const MAX_VERSION := 15

  function Info(v: nat): Version
    requires 1 <= v <= MAX_VERSION
  {
    match v
    case 1 => Version(26, 10, 1, 16, 0, 0)
    case 2 => Version(44, 16, 1, 28, 0, 0)
    case 3 => Version(70, 26, 1, 44, 0, 0)
    case 4 => Version(100, 18, 2, 32, 0, 0)
    case 5 => Version(134, 24, 2, 43, 0, 0)
    case 6 => Version(172, 16, 4, 27, 0, 0)
    case 7 => Version(196, 18, 4, 31, 0, 0)
    case 8 => Version(242, 22, 2, 38, 2, 39)
    case 9 => Version(292, 22, 3, 36, 2, 37)
    case 10 => Version(346, 26, 4, 43, 1, 44)
    case 11 => Version(404, 30, 1, 50, 4, 51)
    case 12 => Version(466, 22, 6, 36, 2, 37)
    case 13 => Version(532, 22, 8, 37, 1, 38)
    case 14 => Version(581, 24, 4, 40, 5, 41)
    case _ => Version(655, 24, 5, 41, 5, 42)
  }

  function DataCodewords(v: nat): nat
    requires 1 <= v <= MAX_VERSION
  {
    var i := Info(v);
    i.g1n * i.g1d + i.g2n * i.g2d
  }

  function ByteCapacity(v: nat): int
    requires 1 <= v <= MAX_VERSION
  {
    DataCodewords(v) - (if v <= 9 then 2 else 3)
  }

  /** The tables fit together: every codeword of the symbol is data or error correction. */
  lemma TablesAddUp(v: nat)
    requires 1 <= v <= MAX_VERSION
    ensures Info(v).total == DataCodewords(v) + Info(v).ecc * (Info(v).g1n + Info(v).g2n)
    ensures 0 < Info(v).ecc && Info(v).g1n > 0 && Info(v).g1d > 0
    ensures Info(v).g2n > 0 ==> Info(v).g2d == Info(v).g1d + 1
    ensures Info(v).g2n == 0 ==> Info(v).g2d == 0
    ensures Info(v).g1d + 1 + Info(v).ecc <= 255
    ensures 16 <= DataCodewords(v) <= 415
  {
  }

  /** Check codewords of a block and number of blocks at level M (ISO/IEC 18004:2015, table 9). */
  function BlockPlan(v: nat): (nat, nat)
    requires 1 <= v <= MAX_VERSION
  {
    match v
    case 1 => (10, 1) case 2 => (16, 1) case 3 => (26, 1) case 4 => (18, 2) case 5 => (24, 2)
    case 6 => (16, 4) case 7 => (18, 4) case 8 => (22, 4) case 9 => (22, 5) case 10 => (26, 5)
    case 11 => (30, 5) case 12 => (22, 8) case 13 => (22, 9) case 14 => (24, 9) case _ => (24, 10)
  }

  /** Modules for data by the geometry: the square without finders, timing, format, alignment and version patterns. */
  function DataModules(v: nat): int
    requires 1 <= v <= MAX_VERSION
  {
    var n := v / 7 + 2;
    (4 * v + 17) * (4 * v + 17) - 3 * 64 - 2 * (4 * v + 1) - 31
    - (if v >= 2 then 25 * (n * n - 3) - 10 * (n - 2) else 0) - (if v >= 7 then 36 else 0)
  }

  /**
    The table follows from the plan: as many codewords as fit on the data modules, dealt out to the blocks as evenly as
    possible, the longer blocks last.
   */
  lemma TableFromPlan(v: nat)
    requires 1 <= v <= MAX_VERSION
    ensures var i := Info(v);
            && 8 * i.total <= DataModules(v) < 8 * i.total + 8
            && i.ecc == BlockPlan(v).0 && i.g1n + i.g2n == BlockPlan(v).1 && i.g1n > 0
            && i.total == i.g1n * (i.g1d + i.ecc) + i.g2n * (i.g1d + 1 + i.ecc)
            && i.g2d == if i.g2n == 0 then 0 else i.g1d + 1
  {
  }

  // ---- Numbers as bits, most significant first ----

  function BitsOf(value: nat, length: nat): (r: seq<bit>)
    ensures |r| == length
  {
    if length == 0 then [] else BitsOf(value / 2, length - 1) + [value % 2]
  }

  function NatOf(bits: seq<bit>): nat {
    if |bits| == 0 then 0 else 2 * NatOf(bits[..|bits| - 1]) + bits[|bits| - 1]
  }

  lemma {:induction false} NatOfBitsOf(value: nat, length: nat)
    requires value < Pow2(length)
    ensures NatOf(BitsOf(value, length)) == value
  {
    if length > 0 {
      NatOfBitsOf(value / 2, length - 1);
      assert BitsOf(value, length)[..length - 1] == BitsOf(value / 2, length - 1);
    }
  }

  lemma {:induction false} BitsOfNatOf(bits: seq<bit>)
    ensures NatOf(bits) < Pow2(|bits|)
    ensures BitsOf(NatOf(bits), |bits|) == bits
  {
    if |bits| > 0 {
      BitsOfNatOf(bits[..|bits| - 1]);
    }
  }

  lemma TwiceProduct(n: nat, p: nat)
    ensures n * (2 * p) == 2 * (n * p)
  {
  }

  lemma {:induction false} NatOfZeros(bits: seq<bit>, k: nat)
    ensures NatOf(bits + ZeroBits(k)) == NatOf(bits) * Pow2(k)
  {
    if k == 0 {
      assert bits + ZeroBits(0) == bits;
    } else {
      NatOfZeros(bits, k - 1);
      assert (bits + ZeroBits(k))[..|bits| + k - 1] == bits + ZeroBits(k - 1);
      assert Pow2(k) == 2 * Pow2(k - 1);
      TwiceProduct(NatOf(bits), Pow2(k - 1));
    }
  }

  function ZeroBits(k: nat): (r: seq<bit>)
    ensures |r| == k
  {
    seq(k, _ => 0)
  }

  /** A byte string as bits. */
  function ToBits(bytes: seq<byte>): (r: seq<bit>)
    ensures |r| == 8 * |bytes|
  {
    seq(8 * |bytes|, i requires 0 <= i < 8 * |bytes| => BitsOf(bytes[i / 8], 8)[i % 8])
  }

  /** A bit string, cut into bytes. */
  function FromBits(bits: seq<bit>): (r: seq<byte>)
    requires |bits| % 8 == 0
    ensures |r| == |bits| / 8
  {
    seq(|bits| / 8, j requires 0 <= j < |bits| / 8 => ByteOf(bits[8 * j..8 * j + 8]))
  }

  function ByteOf(bits: seq<bit>): byte
    requires |bits| == 8
  {
    BitsOfNatOf(bits);
    Pow2Values();
    NatOf(bits)
  }

  lemma ToBitsGroup(bytes: seq<byte>, j: nat)
    requires j < |bytes|
    ensures ToBits(bytes)[8 * j..8 * j + 8] == BitsOf(bytes[j], 8)
  {
    hide BitsOf;
    var group := ToBits(bytes)[8 * j..8 * j + 8];
    forall i | 0 <= i < 8 ensures group[i] == BitsOf(bytes[j], 8)[i] {
      DivModUnique(8 * j + i, 8, j, i);
      assert group[i] == ToBits(bytes)[8 * j + i];
    }
  }

  lemma FromToBits(bytes: seq<byte>)
    ensures FromBits(ToBits(bytes)) == bytes
  {
    hide NatOf, BitsOf, ToBits, Pow2;
    forall j | 0 <= j < |bytes| ensures FromBits(ToBits(bytes))[j] == bytes[j] {
      ToBitsGroup(bytes, j);
      Pow2Values();
      NatOfBitsOf(bytes[j], 8);
    }
  }

  lemma ToFromBits(bits: seq<bit>)
    requires |bits| % 8 == 0
    ensures ToBits(FromBits(bits)) == bits
  {
    forall i | 0 <= i < |bits| ensures ToBits(FromBits(bits))[i] == bits[i] {
      var j := i / 8;
      BitsOfNatOf(bits[8 * j..8 * j + 8]);
      assert bits[8 * j..8 * j + 8][i % 8] == bits[i];
    }
  }

  lemma ToBitsConcat(a: seq<byte>, b: seq<byte>)
    ensures ToBits(a + b) == ToBits(a) + ToBits(b)
  {
    forall i | 0 <= i < 8 * |a + b| ensures ToBits(a + b)[i] == (ToBits(a) + ToBits(b))[i] {
      if i >= 8 * |a| {
        var k := i - 8 * |a|;
        assert i / 8 == |a| + k / 8 && i % 8 == k % 8;
      }
    }
  }

  /** The source's growing list of bits. */
  class BitBuffer {
    var bits: seq<bit>

    constructor ()
      ensures bits == []
    {
      bits := [];
    }

    method Push(value: nat, length: nat)
      modifies this
      ensures bits == old(bits) + BitsOf(value, length)
    {
      var i := length;
      while i > 0
        invariant 0 <= i <= length
        invariant bits == old(bits) + BitsOf(Shr(value, i), length - i)
      {
        i := i - 1;
        bits := bits + [Shr(value, i) % 2];
      }
    }

    /** Packs the bits into bytes; a last partial byte is filled with zeros. */
    method ToBytes() returns (out: array<byte>)
      ensures out[..] == FromBits(bits + ZeroBits((8 - |bits| % 8) % 8))
      ensures fresh(out)
    {
      hide Or, Packed, Pow2, FromBits, ZeroBits;
      var n := |bits|;
      EmptyPacked();
      out := new byte[(n + 7) / 8](_ => 0);
      var i := 0;
      while i < n
        invariant 0 <= i <= n
        invariant forall j :: 0 <= j < out.Length ==> out[j] == Packed(bits[..i], j)
      {
        var j, k := i / 8, i % 8;
        PackStep(bits, i);
        out[j] := Or(out[j], bits[i] * Pow2(7 - k));
        i := i + 1;
      }
      assert bits[..n] == bits;
      PackedAll(bits);
    }
  }

  /** Byte j of a bit string that may stop anywhere: missing low bits are zero. */
  function Packed(bits: seq<bit>, j: nat): byte {
    if |bits| <= 8 * j then 0
    else if |bits| >= 8 * j + 8 then ByteOf(bits[8 * j..8 * j + 8])
    else ByteOf(bits[8 * j..] + ZeroBits(8 * j + 8 - |bits|))
  }

  lemma EmptyPacked()
    ensures forall j :: Packed([], j) == 0
  {
  }

  /** Setting one more bit is a disjunction with that bit in its place. */
  lemma PackNext(bits: seq<bit>, b: bit, j: nat, k: nat)
    requires |bits| == 8 * j + k && k < 8
    ensures Or(Packed(bits, j), b * Pow2(7 - k)) == Packed(bits + [b], j)
  {
    hide Or, Packed, Pow2;
    PackedGroup(bits, j, k);
    PackedGroup(bits + [b], j, k + 1);
    var group := bits[8 * j..];
    assert (bits + [b])[8 * j..] == group + [b];
    assert NatOf(group + [b]) == 2 * NatOf(group) + b by { assert (group + [b])[..k] == group; }
    SetBit(NatOf(group), b, 7 - k);
  }

  /** What one more bit changes. */
  lemma PackStep(bits: seq<bit>, i: nat)
    requires i < |bits|
    ensures Or(Packed(bits[..i], i / 8), bits[i] * Pow2(7 - i % 8)) == Packed(bits[..i + 1], i / 8)
    ensures forall j :: 0 <= j != i / 8 ==> Packed(bits[..i + 1], j) == Packed(bits[..i], j)
  {
    hide Or, Packed, Pow2;
    assert bits[..i + 1] == bits[..i] + [bits[i]];
    PackNext(bits[..i], bits[i], i / 8, i % 8);
    PackOthers(bits[..i], bits[i], i / 8);
  }

  lemma PackOthers(bits: seq<bit>, b: bit, j: nat)
    requires j == |bits| / 8
    ensures forall i :: 0 <= i != j ==> Packed(bits + [b], i) == Packed(bits, i)
  {
    forall i | 0 <= i != j ensures Packed(bits + [b], i) == Packed(bits, i) {
      if i < j {
        assert (bits + [b])[8 * i..8 * i + 8] == bits[8 * i..8 * i + 8];
      }
    }
  }

  lemma PackedGroup(bits: seq<bit>, j: nat, k: nat)
    requires |bits| == 8 * j + k && k <= 8
    ensures Packed(bits, j) == NatOf(bits[8 * j..]) * Pow2(8 - k)
  {
    var group := bits[8 * j..];
    NatOfZeros(group, 8 - k);
    if k == 8 {
      assert bits[8 * j..8 * j + 8] == group;
    } else if k == 0 {
      assert group == [];
    }
  }

  lemma SetBit(c: nat, b: bit, k: nat)
    ensures Or(c * Pow2(k + 1), b * Pow2(k)) == (2 * c + b) * Pow2(k)
  {
    hide Or;
    OrDisjoint(b * Pow2(k), c, k + 1);
    assert (2 * c + b) * Pow2(k) == c * Pow2(k + 1) + b * Pow2(k);
  }

  /** The bits of byte j in the padded string. */
  lemma PaddedGroup(bits: seq<bit>, j: nat)
    requires j < (|bits| + 7) / 8
    ensures var padded := bits + ZeroBits((8 - |bits| % 8) % 8);
            8 * j + 8 <= |padded| && padded[8 * j..8 * j + 8]
              == if |bits| >= 8 * j + 8 then bits[8 * j..8 * j + 8] else bits[8 * j..] + ZeroBits(8 * j + 8 - |bits|)
  {
  }

  lemma PackedAll(bits: seq<bit>)
    ensures forall j :: 0 <= j < (|bits| + 7) / 8 ==>
      Packed(bits, j) == FromBits(bits + ZeroBits((8 - |bits| % 8) % 8))[j]
  {
    var padded := bits + ZeroBits((8 - |bits| % 8) % 8);
    forall j | 0 <= j < (|bits| + 7) / 8 ensures Packed(bits, j) == FromBits(padded)[j] {
      PaddedGroup(bits, j);
    }
  }

  // ---- Byte-mode segment, terminator and padding ----

  function CountBits(v: nat): nat {
    if v <= 9 then 8 else 16
  }

  /** Mode indicator, character count, the bytes, and the four-bit terminator. */
  function Segment(bytes: seq<byte>, v: nat): (r: seq<bit>)
    ensures |r| == 8 + CountBits(v) + 8 * |bytes|
  {
    BitsOf(4, 4) + BitsOf(|bytes|, CountBits(v)) + ToBits(bytes) + ZeroBits(4)
  }

  function Pads(n: nat): (r: seq<byte>)
    ensures |r| == n
  {
    seq(n, i => if i % 2 == 0 then 0xEC else 0x11)
  }

  /** The data codewords of a symbol. */
  function DataBlock(bytes: seq<byte>, v: nat): (r: seq<byte>)
    requires 1 <= v <= MAX_VERSION && |bytes| <= ByteCapacity(v)
    ensures |r| == DataCodewords(v)
  {
    var head := FromBits(Segment(bytes, v));
    head + Pads(DataCodewords(v) - |head|)
  }

  /** A reader of data codewords: mode, count, then that many bytes. */
  function ReadSegment(codewords: seq<byte>, v: nat): Option<seq<byte>> {
    hide ToBits, NatOf, CountBits, FromBits;
    var bits, c := ToBits(codewords), CountBits(v);
    if |bits| < 4 + c || NatOf(bits[..4]) != 4 then None
    else
      var n := NatOf(bits[4..4 + c]);
      if |bits| < 4 + c + 8 * n then None else Some(FromBits(bits[4 + c..4 + c + 8 * n]))
  }

  lemma ReadDataBlock(bytes: seq<byte>, v: nat)
    requires 1 <= v <= MAX_VERSION && |bytes| <= ByteCapacity(v)
    ensures ReadSegment(DataBlock(bytes, v), v) == Some(bytes)
  {
    hide BitsOf, NatOf, ToBits, FromBits, Pads, Pow2, ZeroBits, Segment, DataCodewords, ByteCapacity, CountBits;
    RoomFor(|bytes|, v);
    var segment := Segment(bytes, v);
    var head := FromBits(segment);
    var pads := Pads(DataCodewords(v) - |head|);
    var bits := ToBits(DataBlock(bytes, v));
    ToFromBits(segment);
    ToBitsConcat(head, pads);
    assert bits == segment + ToBits(pads);
    SegmentParts(bytes, v, ToBits(pads));
    CountFits(v);
    ReadParts(bits, bytes, v);
  }

  lemma ReadParts(bits: seq<bit>, bytes: seq<byte>, v: nat)
    requires var c := CountBits(v);
             && |bits| >= 4 + c + 8 * |bytes| && bits[..4] == BitsOf(4, 4) && bits[4..4 + c] == BitsOf(|bytes|, c)
             && bits[4 + c..4 + c + 8 * |bytes|] == ToBits(bytes)
    requires |bytes| < Pow2(CountBits(v)) && 4 < Pow2(4)
    ensures var c := CountBits(v);
            && NatOf(bits[..4]) == 4 && NatOf(bits[4..4 + c]) == |bytes| && FromBits(bits[4 + c..4 + c + 8 * |bytes|]) == bytes
  {
    hide BitsOf, NatOf, ToBits, FromBits, CountBits, Pow2;
    NatOfBitsOf(4, 4);
    NatOfBitsOf(|bytes|, CountBits(v));
    FromToBits(bytes);
  }

  /** Where the fields of a segment are, whatever follows it. */
  lemma SegmentParts(bytes: seq<byte>, v: nat, more: seq<bit>)
    ensures var bits, c := Segment(bytes, v) + more, CountBits(v);
            && |bits| >= 4 + c + 8 * |bytes| && bits[..4] == BitsOf(4, 4) && bits[4..4 + c] == BitsOf(|bytes|, c)
            && bits[4 + c..4 + c + 8 * |bytes|] == ToBits(bytes)
  {
    hide BitsOf, ToBits, ZeroBits, CountBits;
    ThreeParts(BitsOf(4, 4), BitsOf(|bytes|, CountBits(v)), ToBits(bytes), ZeroBits(4) + more);
    assert Segment(bytes, v) + more == BitsOf(4, 4) + BitsOf(|bytes|, CountBits(v)) + ToBits(bytes) + (ZeroBits(4) + more);
  }

  lemma ThreeParts<T>(a: seq<T>, b: seq<T>, c: seq<T>, d: seq<T>)
    ensures var s := a + b + c + d;
            s[..|a|] == a && s[|a|..|a| + |b|] == b && s[|a| + |b|..|a| + |b| + |c|] == c
  {
  }

  lemma CountFits(v: nat)
    requires 1 <= v <= MAX_VERSION
    ensures ByteCapacity(v) < Pow2(CountBits(v)) && 4 < Pow2(4)
  {
    Pow2Values();
  }

  /** The smallest version that holds n bytes, if any does. */
  method ChooseVersion(n: nat) returns (version: nat)
    ensures version <= MAX_VERSION
    ensures version == 0 ==> forall v :: 1 <= v <= MAX_VERSION ==> ByteCapacity(v) < n
    ensures version > 0 ==> ByteCapacity(version) >= n
    ensures version > 0 ==> forall v :: 1 <= v < version ==> ByteCapacity(v) < n
  {
    version := 0;
    for v := 1 to MAX_VERSION + 1
      invariant version == 0
      invariant forall u :: 1 <= u < v ==> ByteCapacity(u) < n
    {
      if ByteCapacity(v) >= n {
        version := v;
        break;
      }
    }
  }

  /** Exactly the byte strings of at most 412 bytes have a version. */
  lemma MaximumCapacity()
    ensures ByteCapacity(MAX_VERSION) == 412
    ensures forall v :: 1 <= v <= MAX_VERSION ==> ByteCapacity(v) <= 412
  {
  }

  /** Fills a bit buffer as encodeText does. */
  lemma RoomFor(n: nat, v: nat)
    requires 1 <= v <= MAX_VERSION && n <= ByteCapacity(v)
    ensures 8 + CountBits(v) + 8 * n <= 8 * DataCodewords(v) && CountBits(v) % 8 == 0
  {
    hide DataCodewords;
  }

  method EncodeData(bytes: seq<byte>, version: nat) returns (out: array<byte>)
    requires 1 <= version <= MAX_VERSION && |bytes| <= ByteCapacity(version)
    ensures out[..] == DataBlock(bytes, version)
    ensures fresh(out)
  {
    hide BitsOf, NatOf, ToBits, FromBits, Pads, ZeroBits, DataCodewords, ByteCapacity, CountBits;
    RoomFor(|bytes|, version);
    var dataCW := DataCodewords(version);
    ghost var segment := Segment(bytes, version);
    ghost var head := FromBits(segment);
    var bb := new BitBuffer();
    bb.Push(4, 4);
    bb.Push(|bytes|, CountBits(version));
    PushBytes(bb, bytes);
    var room := dataCW * 8 - |bb.bits|;
    bb.Push(0, if room < 4 then room else 4);
    ZeroPush(4);
    assert bb.bits == segment;
    PadToByte(bb);
    ToFromBits(segment);
    FillWithPads(bb, head, dataCW);
    FromToBits(DataBlock(bytes, version));
    NoZeroBits(bb.bits);
    out := bb.ToBytes();
  }

  method PushBytes(bb: BitBuffer, bytes: seq<byte>)
    modifies bb
    ensures bb.bits == old(bb.bits) + ToBits(bytes)
  {
    hide BitsOf, ToBits;
    ToBitsEmpty();
    for i := 0 to |bytes|
      invariant bb.bits == old(bb.bits) + ToBits(bytes[..i])
    {
      bb.Push(bytes[i], 8);
      PushByte(bytes[..i], bytes[i]);
      assert bytes[..i + 1] == bytes[..i] + [bytes[i]];
    }
    assert bytes[..|bytes|] == bytes;
  }

  lemma ToBitsEmpty()
    ensures ToBits([]) == []
  {
  }

  /** Pads to a byte boundary. (A byte-mode segment of 12 or 20 bits, whole bytes and 4 more already ends on one.) */
  method PadToByte(bb: BitBuffer)
    modifies bb
    ensures bb.bits == old(bb.bits) + ZeroBits((8 - |old(bb.bits)| % 8) % 8)
    ensures |old(bb.bits)| % 8 == 0 ==> bb.bits == old(bb.bits)
  {
    NoZeroBits(bb.bits);
    if |bb.bits| % 8 != 0 {
      ZeroPush(8 - |bb.bits| % 8);
      bb.Push(0, 8 - |bb.bits| % 8);
    }
  }

  lemma NoZeroBits(bits: seq<bit>)
    ensures bits + ZeroBits(0) == bits
  {
  }

  /** Alternating pad codewords until the capacity is reached. */
  method FillWithPads(bb: BitBuffer, ghost head: seq<byte>, dataCW: nat)
    requires bb.bits == ToBits(head) && |head| <= dataCW
    modifies bb
    ensures bb.bits == ToBits(head + Pads(dataCW - |head|))
  {
    hide BitsOf, ToBits, Pads;
    var i := 0;
    NoPads(head);
    while |bb.bits| < dataCW * 8
      invariant |bb.bits| == 8 * (|head| + i) <= dataCW * 8
      invariant bb.bits == ToBits(head + Pads(i))
    {
      var pad := if i % 2 == 0 then 0xEC else 0x11;
      bb.Push(pad, 8);
      PushByte(head + Pads(i), pad);
      NextPad(head, i);
      i := i + 1;
    }
  }

  lemma NoPads(head: seq<byte>)
    ensures head + Pads(0) == head
  {
  }

  lemma NextPad(head: seq<byte>, i: nat)
    ensures head + Pads(i + 1) == head + Pads(i) + [if i % 2 == 0 then 0xEC else 0x11]
  {
  }

  lemma {:induction false} PushByte(bytes: seq<byte>, b: byte)
    ensures ToBits(bytes + [b]) == ToBits(bytes) + BitsOf(b, 8)
  {
    ToBitsConcat(bytes, [b]);
    ToBitsGroup([b], 0);
    assert ToBits([b])[0..8] == ToBits([b]);
  }

  lemma {:induction false} ZeroPush(k: nat)
    ensures BitsOf(0, k) == ZeroBits(k)
  {
    if k > 0 {
      ZeroPush(k - 1);
    }
  }

  // ---- Interleaving ----

  /** The i-th codeword of every block that has one. */
  function Column(blocks: seq<seq<byte>>, i: nat): seq<byte> {
    if |blocks| == 0 then []
    else (if i < |blocks[0]| then [blocks[0][i]] else []) + Column(blocks[1..], i)
  }

  /** Columns from i up to width, one after another. */
  function Interleaved(blocks: seq<seq<byte>>, i: nat, width: nat): seq<byte>
    decreases width - i
  {
    if i >= width then [] else Column(blocks, i) + Interleaved(blocks, i + 1, width)
  }

  function Sum(lens: seq<nat>): nat {
    if |lens| == 0 then 0 else lens[0] + Sum(lens[1..])
  }

  /** Cuts s into consecutive blocks. */
  function Split(s: seq<byte>, lens: seq<nat>): (r: seq<seq<byte>>)
    requires |s| == Sum(lens)
    ensures |r| == |lens|
    ensures forall b :: 0 <= b < |r| ==> |r[b]| == lens[b]
  {
    if |lens| == 0 then [] else [s[..lens[0]]] + Split(s[lens[0]..], lens[1..])
  }

  lemma {:induction false} FlattenSplit(s: seq<byte>, lens: seq<nat>)
    requires |s| == Sum(lens)
    ensures Flatten(Split(s, lens)) == s
  {
    if |lens| > 0 {
      FlattenSplit(s[lens[0]..], lens[1..]);
      FlattenFirst(s[..lens[0]], Split(s[lens[0]..], lens[1..]));
      assert s[..lens[0]] + s[lens[0]..] == s;
    }
  }

  /** The reader's step: hand the next codewords to the blocks that are longer than i. */
  function ReadColumn(lens: seq<nat>, i: nat, acc: seq<seq<byte>>, s: seq<byte>): (r: Option<(seq<seq<byte>>, seq<byte>)>)
    requires |acc| == |lens|
    ensures r.Some? ==> |r.value.0| == |lens|
  {
    if |lens| == 0 then Some((acc, s))
    else if i >= lens[0] then
      var r := ReadColumn(lens[1..], i, acc[1..], s);
      if r.None? then None else Some(([acc[0]] + r.value.0, r.value.1))
    else if |s| == 0 then None
    else
      var r := ReadColumn(lens[1..], i, acc[1..], s[1..]);
      if r.None? then None else Some(([acc[0] + [s[0]]] + r.value.0, r.value.1))
  }

  /** Reads columns i up to width. */
  function ReadColumns(lens: seq<nat>, i: nat, width: nat, acc: seq<seq<byte>>, s: seq<byte>): Option<(seq<seq<byte>>, seq<byte>)>
    requires |acc| == |lens|
    decreases width - i
  {
    if i >= width then Some((acc, s))
    else
      var r := ReadColumn(lens, i, acc, s);
      if r.None? then None else ReadColumns(lens, i + 1, width, r.value.0, r.value.1)
  }

  function Lengths(blocks: seq<seq<byte>>): (r: seq<nat>)
    ensures |r| == |blocks|
  {
    seq(|blocks|, b requires 0 <= b < |blocks| => |blocks[b]|)
  }

  /** What each block holds after i columns. */
  function Prefixes(blocks: seq<seq<byte>>, i: nat): (r: seq<seq<byte>>)
    ensures |r| == |blocks|
  {
    seq(|blocks|, b requires 0 <= b < |blocks| => if i < |blocks[b]| then blocks[b][..i] else blocks[b])
  }

  lemma {:induction false} ReadOneColumn(blocks: seq<seq<byte>>, i: nat, rest: seq<byte>)
    ensures ReadColumn(Lengths(blocks), i, Prefixes(blocks, i), Column(blocks, i) + rest)
         == Some((Prefixes(blocks, i + 1), rest))
  {
    if |blocks| == 0 {
      assert Column(blocks, i) + rest == rest;
    } else {
      hide Prefixes, Column, ReadColumn, Lengths;
      ReadOneColumn(blocks[1..], i, rest);
      ReadHead(blocks, i, rest);
    }
  }

  /** The first block, when the others are done. */
  lemma ReadHead(blocks: seq<seq<byte>>, i: nat, rest: seq<byte>)
    requires |blocks| > 0
    requires ReadColumn(Lengths(blocks[1..]), i, Prefixes(blocks[1..], i), Column(blocks[1..], i) + rest)
          == Some((Prefixes(blocks[1..], i + 1), rest))
    ensures ReadColumn(Lengths(blocks), i, Prefixes(blocks, i), Column(blocks, i) + rest) == Some((Prefixes(blocks, i + 1), rest))
  {
    hide Prefixes, Column, ReadColumn, Lengths;
    var s, next := Column(blocks, i) + rest, Column(blocks[1..], i) + rest;
    LengthsHead(blocks);
    PrefixHead(blocks, i);
    PrefixHead(blocks, i + 1);
    ColumnHead(blocks, i);
    ColumnStart(blocks, i, rest);
    assert i < |blocks[0]| ==> blocks[0][..i + 1] == blocks[0][..i] + [blocks[0][i]];
    ReadColumnHead(Lengths(blocks), i, Prefixes(blocks, i), s);
  }

  lemma ColumnStart(blocks: seq<seq<byte>>, i: nat, rest: seq<byte>)
    requires |blocks| > 0
    ensures var s, next := Column(blocks, i) + rest, Column(blocks[1..], i) + rest;
            if i < |blocks[0]| then |s| > 0 && s[0] == blocks[0][i] && s[1..] == next
            else s == next
  {
    ColumnHead(blocks, i);
    hide Column;
    var more := Column(blocks[1..], i);
    if i < |blocks[0]| {
      Grouped([blocks[0][i]], more, rest);
      Uncons(blocks[0][i], more + rest);
    } else {
      assert [] + more == more;
    }
  }

  lemma Uncons(x: byte, s: seq<byte>)
    ensures ([x] + s)[0] == x && ([x] + s)[1..] == s
  {
  }

  lemma LengthsHead(blocks: seq<seq<byte>>)
    requires |blocks| > 0
    ensures Lengths(blocks)[0] == |blocks[0]| && Lengths(blocks)[1..] == Lengths(blocks[1..])
  {
  }

  lemma ColumnHead(blocks: seq<seq<byte>>, i: nat)
    requires |blocks| > 0
    ensures Column(blocks, i) == (if i < |blocks[0]| then [blocks[0][i]] else []) + Column(blocks[1..], i)
  {
  }

  /** The step of ReadColumn. */
  lemma ReadColumnHead(lens: seq<nat>, i: nat, acc: seq<seq<byte>>, s: seq<byte>)
    requires |acc| == |lens| > 0 && (i < lens[0] ==> |s| > 0)
    ensures var r := ReadColumn(lens[1..], i, acc[1..], if i >= lens[0] then s else s[1..]);
            r.Some? ==> ReadColumn(lens, i, acc, s) == Some(([if i >= lens[0] then acc[0] else acc[0] + [s[0]]] + r.value.0, r.value.1))
  {
  }

  lemma PrefixHead(blocks: seq<seq<byte>>, i: nat)
    requires |blocks| > 0
    ensures Prefixes(blocks, i)[1..] == Prefixes(blocks[1..], i)
    ensures Prefixes(blocks, i) == [if i < |blocks[0]| then blocks[0][..i] else blocks[0]] + Prefixes(blocks[1..], i)
    ensures i == |blocks[0]| ==> blocks[0][..i] == blocks[0]
  {
  }

  /** Reading undoes interleaving, for blocks of any lengths. */
  lemma {:induction false} ReadInterleaved(blocks: seq<seq<byte>>, i: nat, width: nat, rest: seq<byte>)
    requires i <= width
    requires forall b :: 0 <= b < |blocks| ==> |blocks[b]| <= width
    ensures ReadColumns(Lengths(blocks), i, width, Prefixes(blocks, i), Interleaved(blocks, i, width) + rest)
         == Some((blocks, rest))
    decreases width - i
  {
    if i == width {
      assert Prefixes(blocks, i) == blocks;
      assert Interleaved(blocks, i, width) + rest == rest;
    } else {
      var later := Interleaved(blocks, i + 1, width) + rest;
      assert Interleaved(blocks, i, width) + rest == Column(blocks, i) + later;
      ReadOneColumn(blocks, i, later);
      ReadInterleaved(blocks, i + 1, width, rest);
    }
  }

  /** How many codewords have been emitted before column i, block b. */
  lemma {:induction false} ColumnLength(blocks: seq<seq<byte>>, i: nat)
    ensures Sum(Lengths(Prefixes(blocks, i + 1))) == Sum(Lengths(Prefixes(blocks, i))) + |Column(blocks, i)|
  {
    if |blocks| > 0 {
      hide Sum, Lengths, Prefixes;
      ColumnLength(blocks[1..], i);
      FirstLength(blocks, i);
      FirstLength(blocks, i + 1);
    } else {
      assert Prefixes(blocks, i + 1) == Prefixes(blocks, i);
    }
  }

  lemma FirstLength(blocks: seq<seq<byte>>, i: nat)
    requires |blocks| > 0
    ensures Sum(Lengths(Prefixes(blocks, i))) == (if i < |blocks[0]| then i else |blocks[0]|) + Sum(Lengths(Prefixes(blocks[1..], i)))
  {
    assert Lengths(Prefixes(blocks, i))[1..] == Lengths(Prefixes(blocks[1..], i));
  }

  lemma {:induction false} InterleavedLength(blocks: seq<seq<byte>>, i: nat, width: nat)
    requires i <= width
    requires forall b :: 0 <= b < |blocks| ==> |blocks[b]| <= width
    ensures |Interleaved(blocks, i, width)| == Sum(Lengths(blocks)) - Sum(Lengths(Prefixes(blocks, i)))
    decreases width - i
  {
    if i == width {
      assert Prefixes(blocks, i) == blocks;
    } else {
      ColumnLength(blocks, i);
      InterleavedLength(blocks, i + 1, width);
    }
  }

  lemma {:induction false} EmptyPrefixes(blocks: seq<seq<byte>>)
    ensures Sum(Lengths(Prefixes(blocks, 0))) == 0
    ensures forall b :: 0 <= b < |blocks| ==> Prefixes(blocks, 0)[b] == []
  {
    if |blocks| > 0 {
      EmptyPrefixes(blocks[1..]);
      assert Lengths(Prefixes(blocks, 0))[1..] == Lengths(Prefixes(blocks[1..], 0));
    }
  }

  // ---- The codewords of a symbol ----

  function Repeat(x: nat, n: nat): (r: seq<nat>)
    ensures |r| == n
  {
    seq(n, _ => x)
  }

  /** The block lengths of a version: group 1, then group 2. */
  function BlockLengths(v: nat): (r: seq<nat>)
    requires 1 <= v <= MAX_VERSION
    ensures |r| == Info(v).g1n + Info(v).g2n
  {
    Repeat(Info(v).g1d, Info(v).g1n) + Repeat(Info(v).g2d, Info(v).g2n)
  }

  lemma OnceMore(n: nat, x: nat)
    requires n > 0
    ensures n * x == (n - 1) * x + x
  {
  }

  lemma {:induction false} SumRepeat(x: nat, n: nat, rest: seq<nat>)
    ensures Sum(Repeat(x, n) + rest) == n * x + Sum(rest)
  {
    if n == 0 {
      assert Repeat(x, 0) + rest == rest;
    } else {
      SumRepeat(x, n - 1, rest);
      assert (Repeat(x, n) + rest)[1..] == Repeat(x, n - 1) + rest;
      OnceMore(n, x);
    }
  }

  lemma BlocksFill(v: nat)
    requires 1 <= v <= MAX_VERSION
    ensures Sum(BlockLengths(v)) == DataCodewords(v)
  {
    var i := Info(v);
    SumRepeat(i.g1d, i.g1n, Repeat(i.g2d, i.g2n));
    SumRepeat(i.g2d, i.g2n, []);
    assert Repeat(i.g2d, i.g2n) + [] == Repeat(i.g2d, i.g2n);
  }

  function DataWidth(v: nat): nat
    requires 1 <= v <= MAX_VERSION
  {
    if Info(v).g1d >= Info(v).g2d then Info(v).g1d else Info(v).g2d
  }

  function DataBlocks(data: seq<byte>, v: nat): (r: seq<seq<byte>>)
    requires 1 <= v <= MAX_VERSION && |data| == DataCodewords(v)
    ensures |r| == Info(v).g1n + Info(v).g2n
    ensures forall b :: 0 <= b < |r| ==> |r[b]| == BlockLengths(v)[b] <= DataWidth(v)
  {
    BlocksFill(v);
    Split(data, BlockLengths(v))
  }

  function EccBlocks(blocks: seq<seq<byte>>, ecc: nat): (r: seq<seq<byte>>)
    requires ecc > 0
    ensures |r| == |blocks|
    ensures forall b :: 0 <= b < |r| ==> r[b] == RS.Remainder(blocks[b], ecc)
  {
    seq(|blocks|, b requires 0 <= b < |blocks| => RS.Remainder(blocks[b], ecc))
  }

  /** Data columns, then error correction columns. */
  function Codewords(data: seq<byte>, v: nat): seq<byte>
    requires 1 <= v <= MAX_VERSION && |data| == DataCodewords(v)
  {
    TablesAddUp(v);
    var blocks := DataBlocks(data, v);
    Interleaved(blocks, 0, DataWidth(v)) + Interleaved(EccBlocks(blocks, Info(v).ecc), 0, Info(v).ecc)
  }

  function EmptyBlocks(n: nat): (r: seq<seq<byte>>)
    ensures |r| == n
  {
    seq(n, _ => [])
  }

  /** The reader: deinterleave the data columns and join the blocks; the rest is error correction. */
  function ReadCodewords(s: seq<byte>, v: nat): Option<seq<byte>>
    requires 1 <= v <= MAX_VERSION
  {
    var lens := BlockLengths(v);
    var r := ReadColumns(lens, 0, DataWidth(v), EmptyBlocks(|lens|), s);
    if r.None? then None else Some(Flatten(r.value.0))
  }

  lemma CodewordsRead(data: seq<byte>, v: nat)
    requires 1 <= v <= MAX_VERSION && |data| == DataCodewords(v)
    ensures ReadCodewords(Codewords(data, v), v) == Some(data)
  {
    hide RS.Remainder, Info, Interleaved, ReadColumns, Split, Flatten, DataCodewords, DataWidth;
    TablesAddUp(v);
    var lens, blocks := BlockLengths(v), DataBlocks(data, v);
    assert Lengths(blocks) == lens;
    EmptyPrefixes(blocks);
    assert Prefixes(blocks, 0) == EmptyBlocks(|lens|);
    ReadInterleaved(blocks, 0, DataWidth(v), Interleaved(EccBlocks(blocks, Info(v).ecc), 0, Info(v).ecc));
    BlocksFill(v);
    FlattenSplit(data, lens);
  }

  /** The codewords fill the symbol exactly. */
  lemma CodewordsLength(data: seq<byte>, v: nat)
    requires 1 <= v <= MAX_VERSION && |data| == DataCodewords(v)
    ensures |Codewords(data, v)| == Info(v).total
  {
    hide RS.Remainder, Info;
    TablesAddUp(v);
    var blocks, ecc := DataBlocks(data, v), Info(v).ecc;
    var parity := EccBlocks(blocks, ecc);
    EmptyPrefixes(blocks);
    EmptyPrefixes(parity);
    InterleavedLength(blocks, 0, DataWidth(v));
    InterleavedLength(parity, 0, ecc);
    assert Lengths(blocks) == BlockLengths(v);
    BlocksFill(v);
    assert Lengths(parity) == Repeat(ecc, |blocks|) + [];
    SumRepeat(ecc, |blocks|, []);
    assert |blocks| * ecc == ecc * |blocks|;
  }

  /** Cuts data into the blocks of a version with a running offset. */
  method CutBlocks(data: seq<byte>, lens: seq<nat>) returns (blocks: seq<seq<byte>>)
    requires |data| == Sum(lens)
    ensures blocks == Split(data, lens)
  {
    hide Sum, Split;
    blocks := [];
    var off: nat := 0;
    for b := 0 to |lens|
      invariant off == Offset(lens, b) && |blocks| == b
      invariant forall c :: 0 <= c < b ==> blocks[c] == Split(data, lens)[c]
    {
      SplitAt(data, lens, b);
      blocks := blocks + [data[off..off + lens[b]]];
      off := off + lens[b];
    }
  }

  /** Where block b starts. */
  function Offset(lens: seq<nat>, b: nat): nat
    requires b <= |lens|
  {
    if b == 0 then 0 else Offset(lens, b - 1) + lens[b - 1]
  }

  lemma {:induction false} OffsetTail(lens: seq<nat>, b: nat)
    requires 0 < b <= |lens|
    ensures Offset(lens, b) == lens[0] + Offset(lens[1..], b - 1)
  {
    if b > 1 {
      OffsetTail(lens, b - 1);
    }
  }

  lemma {:induction false} SplitAt(data: seq<byte>, lens: seq<nat>, b: nat)
    requires |data| == Sum(lens) && b < |lens|
    ensures Offset(lens, b) + lens[b] <= |data|
    ensures Split(data, lens)[b] == data[Offset(lens, b)..Offset(lens, b) + lens[b]]
    decreases b
  {
    hide Sum, Split;
    SplitHead(data, lens);
    if b > 0 {
      var rest, more := data[lens[0]..], lens[1..];
      OffsetTail(lens, b);
      SplitAt(rest, more, b - 1);
      assert Split(data, lens)[b] == Split(rest, more)[b - 1];
      var o := Offset(more, b - 1);
      assert rest[o..o + lens[b]] == data[lens[0] + o..lens[0] + o + lens[b]];
    } else {
      assert Split(data, lens)[0] == data[..lens[0]];
    }
  }

  lemma {:induction false} SplitHead(s: seq<byte>, lens: seq<nat>)
    requires |s| == Sum(lens) && |lens| > 0
    ensures lens[0] <= |s| && |s[lens[0]..]| == Sum(lens[1..])
    ensures Split(s, lens) == [s[..lens[0]]] + Split(s[lens[0]..], lens[1..])
  {
  }

  method ComputeEcc(rs: RS.Encoder, blocks: seq<seq<byte>>, eccLen: nat) returns (eccBlocks: seq<seq<byte>>)
    requires rs.Valid() && 0 < eccLen <= 255
    ensures eccBlocks == EccBlocks(blocks, eccLen)
  {
    hide RS.Remainder;
    eccBlocks := [];
    for b := 0 to |blocks|
      invariant |eccBlocks| == b
      invariant forall c :: 0 <= c < b ==> eccBlocks[c] == RS.Remainder(blocks[c], eccLen)
    {
      var rem := rs.RsRemainder(blocks[b], eccLen);
      eccBlocks := eccBlocks + [rem[..]];
    }
  }

  /** The source's interleave: one cursor k that writes every slot of out once, in order. */
  method Interleave(rs: RS.Encoder, data: seq<byte>, version: nat) returns (out: array<byte>)
    requires rs.Valid() && 1 <= version <= MAX_VERSION && |data| == DataCodewords(version)
    ensures out[..] == Codewords(data, version) && |out[..]| == Info(version).total
    ensures fresh(out)
  {
    hide RS.Remainder, Info, Sum, Split, Interleaved, DataCodewords, DataWidth, RS.Encoder.Valid;
    TablesAddUp(version);
    BlocksFill(version);
    var v := Info(version);
    var blocks := CutBlocks(data, BlockLengths(version));
    var eccBlocks := ComputeEcc(rs, blocks, v.ecc);
    CodewordsLength(data, version);
    out := new byte[v.total](_ => 0);
    var k := WriteColumns(out, 0, blocks, DataWidth(version));
    ghost var written := out[..k];
    k := WriteColumns(out, k, eccBlocks, v.ecc);
    assert out[..k] == out[..];
  }

  /** Writes the columns of blocks to out from position start on. */
  method WriteColumns(out: array<byte>, start: nat, blocks: seq<seq<byte>>, width: nat) returns (k: nat)
    requires start + |Interleaved(blocks, 0, width)| <= out.Length
    modifies out
    ensures k == start + |Interleaved(blocks, 0, width)|
    ensures out[..k] == old(out[..start]) + Interleaved(blocks, 0, width)
  {
    hide Interleaved, Column;
    ghost var all := Interleaved(blocks, 0, width);
    ghost var done := [];
    k := start;
    assert done + all == all;
    for i := 0 to width
      invariant k == start + |done| && done + Interleaved(blocks, i, width) == all
      invariant out[..k] == old(out[..start]) + done
    {
      InterleavedNext(blocks, i, width);
      Grouped(done, Column(blocks, i), Interleaved(blocks, i + 1, width));
      k := WriteColumn(out, k, blocks, i);
      Grouped(old(out[..start]), done, Column(blocks, i));
      done := done + Column(blocks, i);
    }
    InterleavedNext(blocks, width, width);
    assert done + [] == done;
  }

  lemma InterleavedNext(blocks: seq<seq<byte>>, i: nat, width: nat)
    ensures Interleaved(blocks, i, width) == if i >= width then [] else Column(blocks, i) + Interleaved(blocks, i + 1, width)
  {
  }

  method WriteColumn(out: array<byte>, start: nat, blocks: seq<seq<byte>>, i: nat) returns (k: nat)
    requires start + |Column(blocks, i)| <= out.Length
    modifies out
    ensures k == start + |Column(blocks, i)|
    ensures out[..k] == old(out[..start]) + Column(blocks, i)
  {
    ghost var done := [];
    k := start;
    assert blocks[0..] == blocks;
    for b := 0 to |blocks|
      invariant k == start + |done| && done + Column(blocks[b..], i) == Column(blocks, i)
      invariant out[..k] == old(out[..start]) + done
    {
      assert blocks[b..][1..] == blocks[b + 1..];
      if i < |blocks[b]| {
        assert done + [blocks[b][i]] + Column(blocks[b + 1..], i) == Column(blocks, i);
        out[k] := blocks[b][i];
        done := done + [blocks[b][i]];
        k := k + 1;
      } else {
        assert Column(blocks[b..], i) == Column(blocks[b + 1..], i);
      }
    }
    assert done + [] == done;
  }
}
