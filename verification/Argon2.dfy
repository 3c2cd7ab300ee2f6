/**
  Argon2 (RFC 9106): the variable-length hash and the memory-filling schedule on a matrix of
  blocks, which the program of web/kdbx-read.js runs in place on one flat array.

  The order in which the lanes of a slice are processed does not matter; that is what lets
  the RFC run them in parallel and the program run them one after another.
 */
module Argon2 {
  import opened Bits
  import opened Bytes
  import opened JsInt
  import opened Blake2b
  import opened Blake2bPairs
  import opened Argon2Compress
  import opened Argon2Index

  // ---- Section 3.3: the variable-length hash H' ----

  /** V_(i + 1): the chain of 64-byte digests. */
  function Chain(seed: seq<byte>, i: nat): (v: seq<byte>)
    ensures |v| == 64
  {
    if i == 0 then Digest(seed, 64) else Digest(Chain(seed, i - 1), 64)
  }

  /** The first halves of V_1 ... V_n. */
  function Halves(seed: seq<byte>, n: nat): (r: seq<byte>)
    ensures |r| == 32 * n
  {
    if n == 0 then [] else Halves(seed, n - 1) + Chain(seed, n - 1)[..32]
  }

  /** H'^T: r = ceil(T / 32) - 2 half digests and one last digest of T - 32 r bytes. */
  function HPrimeSpec(input: seq<byte>, t: nat): (r: seq<byte>)
    requires t >= 1
    ensures |r| == t
  {
    var seed := Le32(t) + input;
    if t <= 64 then Digest(seed, t)
    else
      var r := (t + 31) / 32 - 2;
      Halves(seed, r) + Digest(Chain(seed, r - 1), t - 32 * r)
  }

  /** The source's hPrime. */
  method HPrime(input: seq<byte>, outLen: nat) returns (out: seq<byte>)
    requires 1 <= outLen && |input| + 4 < W64
    ensures out == HPrimeSpec(input, outLen)
  {
    hide Digest;
    var seed := Le32(outLen) + input;
    if outLen <= 64 {
      var d := Hash(seed, outLen);
      return d[..];
    }
    var h := Hash(seed, 64);
    var v := h[..];
    out := [];
    var pos := 0;
    ghost var i: nat := 0;
    while outLen - pos > 64
      invariant pos == 32 * i && out == Halves(seed, i) && outLen - pos > 32
      invariant outLen - pos > 64 ==> v == Chain(seed, i)
      invariant outLen - pos <= 64 ==> i > 0 && v == Digest(Chain(seed, i - 1), outLen - pos)
    {
      out := out + v[..32];
      pos := pos + 32;
      var rem := outLen - pos;
      h := Hash(v, if rem > 64 then 64 else rem);
      v := h[..];
      i := i + 1;
    }
    assert i == (outLen + 31) / 32 - 2;
    out := out + v;
  }

  // ---- The memory ----

  type Block = w: Words | |w| == 128 witness seq(128, _ => 0)
  type Memory = seq<seq<Block>>

  datatype Params = Params(variant: u32, version: u32, passes: u32, memKiB: u32, lanes: u32, tagLen: u32)

  /** Blocks per slice: a quarter of a lane, at least two. */
  function SegLen(p: Params): (s: nat)
    requires p.lanes > 0
    ensures s >= 2
  {
    var s := Quotient(p.memKiB, 4 * p.lanes);
    if s < 2 then 2 else s
  }

  /** What the program can run: 32-bit block counts, and lanes short enough for exact doubles. */
  predicate Supported(p: Params) {
    p.lanes > 0 && 4 * p.lanes * SegLen(p) < W32 && 4 * SegLen(p) <= 0x20_0000
  }

  predicate Shape(p: Params, mem: Memory)
    requires p.lanes > 0
  {
    |mem| == p.lanes && forall l :: 0 <= l < |mem| ==> |mem[l]| == 4 * SegLen(p)
  }

  function ZeroBlock(): Block {
    seq(128, _ => 0)
  }

  /** The input block for data-independent addressing. */
  function AddressInput(p: Params, pass: u32, slice: nat, lane: u32, counter: u32): Block
    requires Supported(p) && slice < 4
  {
    ZeroBlock()[0 := pass][1 := lane][2 := slice][3 := 4 * p.lanes * SegLen(p)][4 := p.passes][5 := p.variant][6 := counter]
  }

  function AddressBlock(p: Params, pass: u32, slice: nat, lane: u32, counter: u32): Block
    requires Supported(p) && slice < 4
  {
    G(ZeroBlock(), G(ZeroBlock(), AddressInput(p, pass, slice, lane, counter)))
  }

  predicate DataIndependent(p: Params, pass: nat, slice: nat) {
    p.variant == 1 || (p.variant == 2 && pass == 0 && slice < 2)
  }

  /** J2 || J1: from the address block with the right counter, or from the previous block. */
  function PseudoRandom(p: Params, mem: Memory, pass: u32, slice: nat, lane: u32, idx: nat): u64
    requires Supported(p) && Shape(p, mem) && lane < p.lanes && Visited(SegLen(p), pass, slice, idx)
  {
    if DataIndependent(p, pass, slice) then AddressBlock(p, pass, slice, lane, idx / 128 + 1)[idx % 128]
    else
      WrapBounded(SegLen(p), slice, idx);
      mem[lane][Previous(SegLen(p), slice, idx)][0]
  }

  lemma WrapBounded(segLen: nat, slice: nat, idx: nat)
    requires segLen > 0 && slice < 4 && idx < segLen
    ensures 0 <= Previous(segLen, slice, idx) < 4 * segLen
    ensures Current(segLen, slice, idx) < 4 * segLen
  {
    if slice == 0 { } else if slice == 1 { } else if slice == 2 { } else { }
  }

  /** The block a step writes. */
  function NewBlock(p: Params, mem: Memory, pass: u32, slice: nat, lane: u32, idx: nat): Block
    requires Supported(p) && Shape(p, mem) && lane < p.lanes && Visited(SegLen(p), pass, slice, idx)
  {
    var s := SegLen(p);
    var j := PseudoRandom(p, mem, pass, slice, lane, idx);
    var refLane := RefLane(pass, slice, lane, p.lanes, j / W32);
    WrapBounded(s, slice, idx);
    LaneInRange(pass, slice, lane, p.lanes, j / W32);
    ReferenceAllowed(s, pass, slice, idx, refLane == lane, j % W32);
    Compressed(
      mem[lane][Previous(s, slice, idx)],
      mem[refLane][Reference(s, pass, slice, idx, refLane == lane, j % W32)],
      mem[lane][Current(s, slice, idx)],
      pass > 0 && p.version == 0x13)
  }

  lemma LaneInRange(pass: nat, slice: nat, lane: nat, lanes: nat, j2: u32)
    requires lane < lanes
    ensures RefLane(pass, slice, lane, lanes, j2) < lanes
  {
  }

  function Step(p: Params, mem: Memory, pass: u32, slice: nat, lane: u32, idx: nat): (r: Memory)
    requires Supported(p) && Shape(p, mem) && lane < p.lanes && Visited(SegLen(p), pass, slice, idx)
    ensures Shape(p, r)
  {
    WrapBounded(SegLen(p), slice, idx);
    var row: seq<Block> := mem[lane];
    var block: Block := NewBlock(p, mem, pass, slice, lane, idx);
    mem[lane := row[Current(SegLen(p), slice, idx) := block]]
  }

  function FirstIdx(pass: nat, slice: nat): nat {
    if pass == 0 && slice == 0 then 2 else 0
  }

  /** The steps of a segment below idx n. */
  function Segment(p: Params, mem: Memory, pass: u32, slice: nat, lane: u32, n: nat): (r: Memory)
    requires Supported(p) && Shape(p, mem) && lane < p.lanes && slice < 4 && n <= SegLen(p)
    ensures Shape(p, r)
  {
    if n <= FirstIdx(pass, slice) then mem
    else Step(p, Segment(p, mem, pass, slice, lane, n - 1), pass, slice, lane, n - 1)
  }

  predicate GoodLanes(p: Params, order: seq<nat>) {
    forall k :: 0 <= k < |order| ==> order[k] < p.lanes
  }

  /** A slice with its lanes processed in a given order. */
  function Slice(p: Params, mem: Memory, pass: u32, slice: nat, order: seq<nat>): (r: Memory)
    requires Supported(p) && Shape(p, mem) && slice < 4 && GoodLanes(p, order)
    ensures Shape(p, r)
  {
    if |order| == 0 then mem
    else Segment(p, Slice(p, mem, pass, slice, order[..|order| - 1]), pass, slice, order[|order| - 1], SegLen(p))
  }

  // ---- Lane order ----

  predicate InSlice(p: Params, slice: nat, pos: nat)
    requires p.lanes > 0
  {
    slice * SegLen(p) <= pos < (slice + 1) * SegLen(p)
  }

  /** What a segment of a lane may look at: its own lane, and other lanes outside the slice. */
  ghost predicate SameView(p: Params, slice: nat, lane: nat, a: Memory, b: Memory)
    requires p.lanes > 0 && Shape(p, a) && Shape(p, b) && lane < p.lanes
  {
    && a[lane] == b[lane]
    && (forall l, pos :: 0 <= l < p.lanes && 0 <= pos < 4 * SegLen(p) && !InSlice(p, slice, pos) ==> a[l][pos] == b[l][pos])
  }

  lemma StepLooksOnlyAtView(p: Params, a: Memory, b: Memory, pass: u32, slice: nat, lane: u32, idx: nat)
    requires Supported(p) && Shape(p, a) && Shape(p, b) && lane < p.lanes && Visited(SegLen(p), pass, slice, idx)
    requires SameView(p, slice, lane, a, b)
    ensures NewBlock(p, a, pass, slice, lane, idx) == NewBlock(p, b, pass, slice, lane, idx)
    ensures SameView(p, slice, lane, Step(p, a, pass, slice, lane, idx), Step(p, b, pass, slice, lane, idx))
  {
    hide SegLen, Supported, AddressBlock, Compressed, Reference, Allowed, RefArea, DataIndependent, Previous;
    var s := SegLen(p);
    WrapBounded(s, slice, idx);
    var j := PseudoRandom(p, a, pass, slice, lane, idx);
    assert j == PseudoRandom(p, b, pass, slice, lane, idx);
    var refLane := RefLane(pass, slice, lane, p.lanes, j / W32);
    LaneInRange(pass, slice, lane, p.lanes, j / W32);
    ReferenceAllowed(s, pass, slice, idx, refLane == lane, j % W32);
    var pos := Reference(s, pass, slice, idx, refLane == lane, j % W32);
    if refLane != lane {
      assert !InSlice(p, slice, pos);
    }
    assert a[refLane][pos] == b[refLane][pos];
    CurrentInSlice(p, slice, idx);
  }

  lemma CurrentInSlice(p: Params, slice: nat, idx: nat)
    requires p.lanes > 0 && slice < 4 && idx < SegLen(p)
    ensures InSlice(p, slice, Current(SegLen(p), slice, idx))
  {
    hide SegLen;
  }

  /** A segment writes only its own lane's part of the slice. */
  ghost predicate OnlySegmentChanged(p: Params, slice: nat, lane: nat, before: Memory, after: Memory)
    requires p.lanes > 0 && Shape(p, before) && Shape(p, after) && lane < p.lanes
  {
    && (forall l :: 0 <= l < p.lanes && l != lane ==> after[l] == before[l])
    && (forall pos :: 0 <= pos < 4 * SegLen(p) && !InSlice(p, slice, pos) ==> after[lane][pos] == before[lane][pos])
  }

  lemma {:induction false} SegmentFrame(p: Params, mem: Memory, pass: u32, slice: nat, lane: u32, n: nat)
    requires Supported(p) && Shape(p, mem) && lane < p.lanes && slice < 4 && n <= SegLen(p)
    ensures OnlySegmentChanged(p, slice, lane, mem, Segment(p, mem, pass, slice, lane, n))
    decreases n
  {
    hide SegLen, Supported, NewBlock;
    if n > FirstIdx(pass, slice) {
      SegmentFrame(p, mem, pass, slice, lane, n - 1);
      CurrentInSlice(p, slice, n - 1);
      WrapBounded(SegLen(p), slice, n - 1);
    }
  }

  lemma {:induction false} SegmentLooksOnlyAtView(p: Params, a: Memory, b: Memory, pass: u32, slice: nat, lane: u32, n: nat)
    requires Supported(p) && Shape(p, a) && Shape(p, b) && lane < p.lanes && slice < 4 && n <= SegLen(p)
    requires SameView(p, slice, lane, a, b)
    ensures SameView(p, slice, lane, Segment(p, a, pass, slice, lane, n), Segment(p, b, pass, slice, lane, n))
    decreases n
  {
    hide SegLen, Supported, Step, SameView;
    if n > FirstIdx(pass, slice) {
      SegmentLooksOnlyAtView(p, a, b, pass, slice, lane, n - 1);
      StepLooksOnlyAtView(p, Segment(p, a, pass, slice, lane, n - 1), Segment(p, b, pass, slice, lane, n - 1), pass, slice, lane, n - 1);
    }
  }

  /** Each lane ends up as if it had been processed alone. */
  lemma {:induction false} SliceByLanes(p: Params, mem: Memory, pass: u32, slice: nat, order: seq<nat>, l: nat)
    requires Supported(p) && Shape(p, mem) && slice < 4 && GoodLanes(p, order) && l < p.lanes
    requires forall j, k :: 0 <= j < k < |order| ==> order[j] != order[k]
    ensures Slice(p, mem, pass, slice, order)[l] ==
      if l in order then Segment(p, mem, pass, slice, l, SegLen(p))[l] else mem[l]
    decreases |order|
  {
    hide SegLen, Supported, Segment;
    if |order| > 0 {
      var init, last := order[..|order| - 1], order[|order| - 1];
      var before := Slice(p, mem, pass, slice, init);
      assert order == init + [last];
      SegmentFrame(p, before, pass, slice, last, SegLen(p));
      SliceByLanes(p, mem, pass, slice, init, l);
      if l == last {
        forall k, pos | 0 <= k < p.lanes && 0 <= pos < 4 * SegLen(p) && !InSlice(p, slice, pos) ensures before[k][pos] == mem[k][pos] {
          SliceByLanes(p, mem, pass, slice, init, k);
          SegmentFrame(p, mem, pass, slice, k, SegLen(p));
        }
        SegmentLooksOnlyAtView(p, before, mem, pass, slice, last, SegLen(p));
      }
    }
  }

  /** Processing the lanes of a slice in any order leaves the same memory. */
  lemma {:induction false} LaneOrderIrrelevant(p: Params, mem: Memory, pass: u32, slice: nat, order: seq<nat>, other: seq<nat>)
    requires Supported(p) && Shape(p, mem) && slice < 4 && GoodLanes(p, order) && GoodLanes(p, other)
    requires forall j, k :: 0 <= j < k < |order| ==> order[j] != order[k]
    requires forall j, k :: 0 <= j < k < |other| ==> other[j] != other[k]
    requires forall l :: l in order <==> l in other
    ensures Slice(p, mem, pass, slice, order) == Slice(p, mem, pass, slice, other)
  {
    hide Slice, Supported, SegLen, Segment;
    var a, b := Slice(p, mem, pass, slice, order), Slice(p, mem, pass, slice, other);
    forall l | 0 <= l < p.lanes ensures a[l] == b[l] {
      SliceByLanes(p, mem, pass, slice, order, l);
      SliceByLanes(p, mem, pass, slice, other, l);
    }
  }
}
