/**
  argon2 of web/kdbx-read.js: nested loops that fill one flat array of 32-bit halves, proved
  to compute the memory and the tag of RFC 9106.
 */
module Argon2Program {
  import opened Bits
  import opened Bytes
  import opened JsInt
  import opened Blake2b
  import opened Blake2bPairs
  import opened Argon2Compress
  import opened Argon2Index
  import opened Argon2

  // ---- The flat array as lanes of blocks ----

  function LaneLength(p: Params): nat
    requires p.lanes > 0
  {
    4 * SegLen(p)
  }

  function Cell(p: Params, lane: nat, pos: nat): nat
    requires p.lanes > 0
  {
    lane * LaneLength(p) + pos
  }

  predicate Fits(p: Params, length: nat) {
    p.lanes > 0 && length == 256 * (p.lanes * LaneLength(p))
  }

  lemma CellInside(p: Params, lane: nat, pos: nat, length: nat)
    requires Fits(p, length) && lane < p.lanes && pos < LaneLength(p)
    ensures Cell(p, lane, pos) < p.lanes * LaneLength(p)
    ensures 256 * Cell(p, lane, pos) + 256 <= length
  {
    hide SegLen;
    var q := LaneLength(p);
    ProductMonotone(q, lane + 1, p.lanes);
    assert q * (lane + 1) == lane * q + q;
    assert q * p.lanes == p.lanes * q;
  }

  lemma CellUnique(p: Params, l: nat, pos: nat, l': nat, pos': nat)
    requires p.lanes > 0 && pos < LaneLength(p) && pos' < LaneLength(p)
    requires Cell(p, l, pos) == Cell(p, l', pos')
    ensures l == l' && pos == pos'
  {
    hide SegLen;
    var q := LaneLength(p);
    assert l * q == q * l && l' * q == q * l';
    DivModUnique(Cell(p, l, pos), q, l, pos);
    DivModUnique(Cell(p, l, pos), q, l', pos');
  }

  function BlockOf(p: Params, s: seq<u32>, lane: nat, pos: nat): Block
    requires Fits(p, |s|) && lane < p.lanes && pos < LaneLength(p)
  {
    CellInside(p, lane, pos, |s|);
    BlockAt(s, 256 * Cell(p, lane, pos))
  }

  function MemOf(p: Params, s: seq<u32>): (mem: Memory)
    requires Fits(p, |s|)
    ensures Shape(p, mem)
    ensures forall l, pos :: 0 <= l < p.lanes && 0 <= pos < LaneLength(p) ==> mem[l][pos] == BlockOf(p, s, l, pos)
  {
    seq(p.lanes, l requires 0 <= l < p.lanes => seq(LaneLength(p), pos requires 0 <= pos < LaneLength(p) => BlockOf(p, s, l, pos)))
  }

  /** Rewriting one block of the flat array rewrites one block of one lane. */
  lemma MemUpdate(p: Params, s: seq<u32>, t: seq<u32>, lane: nat, pos: nat)
    requires Fits(p, |s|) && |t| == |s| && lane < p.lanes && pos < LaneLength(p)
    requires forall k :: 0 <= k < |s| && !(256 * Cell(p, lane, pos) <= k < 256 * Cell(p, lane, pos) + 256) ==> t[k] == s[k]
    ensures var row: seq<Block> := MemOf(p, s)[lane]; MemOf(p, t) == MemOf(p, s)[lane := row[pos := BlockOf(p, t, lane, pos)]]
  {
    hide SegLen, BlockAt, Cell, LaneLength;
    var row: seq<Block> := MemOf(p, s)[lane];
    var a, b := MemOf(p, t), MemOf(p, s)[lane := row[pos := BlockOf(p, t, lane, pos)]];
    forall l | 0 <= l < p.lanes ensures a[l] == b[l] {
      forall k | 0 <= k < LaneLength(p) ensures a[l][k] == b[l][k] {
        if l != lane || k != pos {
          OtherBlock(p, s, t, lane, pos, l, k);
        }
      }
    }
  }

  lemma OtherBlock(p: Params, s: seq<u32>, t: seq<u32>, lane: nat, pos: nat, l: nat, k: nat)
    requires Fits(p, |s|) && |t| == |s| && lane < p.lanes && pos < LaneLength(p) && l < p.lanes && k < LaneLength(p)
    requires forall i :: 0 <= i < |s| && !(256 * Cell(p, lane, pos) <= i < 256 * Cell(p, lane, pos) + 256) ==> t[i] == s[i]
    requires l != lane || k != pos
    ensures BlockOf(p, t, l, k) == BlockOf(p, s, l, k)
  {
    hide SegLen, Cell, LaneLength, Joined;
    CellInside(p, l, k, |s|);
    if Cell(p, l, k) == Cell(p, lane, pos) {
      CellUnique(p, l, k, lane, pos);
    }
    var off := 256 * Cell(p, l, k);
    assert s[off..off + 256] == t[off..off + 256];
  }

  // ---- The machine ----

  /** The arrays of one argon2 call. */
  class Machine {
    const B: array<u32>
    const R: array<u32>
    const Q: array<u32>
    const S: array<u32>
    const addrBlock: array<u32>
    const scratch: array<u32>

    ghost predicate Valid(p: Params) {
      && Fits(p, B.Length) && R.Length == 256 && Q.Length == 256 && S.Length == 32
      && addrBlock.Length == 256 && scratch.Length == 768
      && B != R && B != Q && B != S && B != addrBlock && B != scratch && R != Q && R != S && R != addrBlock && R != scratch
      && Q != S && Q != addrBlock && Q != scratch && S != addrBlock && S != scratch && addrBlock != scratch
    }

    constructor (p: Params)
      requires p.lanes > 0
      ensures Valid(p) && fresh(B) && fresh(R) && fresh(Q) && fresh(S) && fresh(addrBlock) && fresh(scratch)
      ensures MemOf(p, B[..]) == Emptied(p)
    {
      hide SegLen, MemOf, Emptied;
      B := new u32[256 * (p.lanes * LaneLength(p))](_ => 0);
      R := new u32[256](_ => 0);
      Q := new u32[256](_ => 0);
      S := new u32[32](_ => 0);
      addrBlock := new u32[256](_ => 0);
      scratch := new u32[768](_ => 0);
      new;
      EmptyMemory(p, B[..]);
    }

    /** Zeros the first two windows of the scratch buffer and writes the input block into the second. */
    method PrepareInput(p: Params, pass: u32, slice: nat, lane: u32, counter: u32)
      requires Supported(p) && Valid(p) && slice < 4
      modifies scratch
      ensures BlockAt(scratch[..], 0) == ZeroBlock()
      ensures BlockAt(scratch[..], 256) == AddressInput(p, pass, slice, lane, counter)
    {
      hide SegLen;
      ClearInput();
      scratch[256], scratch[258], scratch[260] := pass, lane, slice;
      scratch[262], scratch[264], scratch[266] := 4 * p.lanes * SegLen(p), p.passes, p.variant;
      scratch[268] := counter;
      ZeroWindow(scratch[..], 0);
      InputWindow(p, pass, slice, lane, counter, scratch[..]);
    }

    method ClearInput()
      requires scratch.Length == 768
      modifies scratch
      ensures forall k :: 0 <= k < 512 ==> scratch[k] == 0
    {
      for i := 0 to 512
        invariant forall k :: 0 <= k < i ==> scratch[k] == 0
      {
        scratch[i] := 0;
      }
    }

    /** Regenerates the address block for a counter: G(zero, G(zero, input)). */
    method RefreshAddresses(p: Params, pass: u32, slice: nat, lane: u32, counter: u32)
      requires Supported(p) && Valid(p) && slice < 4
      modifies R, Q, S, addrBlock, scratch
      ensures Joined(addrBlock[..]) == AddressBlock(p, pass, slice, lane, counter)
    {
      hide SegLen, Joined, AddressInput, G;
      PrepareInput(p, pass, slice, lane, counter);
      label prepared:
      AgCompress(scratch, 0, 256, 512, false, R, Q, S);
      assert scratch[..][0..256] == old@prepared(scratch[..][0..256]);
      AgCompress(scratch, 0, 512, 256, false, R, Q, S);
      CopyAddresses();
    }

    method CopyAddresses()
      requires addrBlock.Length == 256 && scratch.Length == 768 && addrBlock != scratch
      modifies addrBlock
      ensures Joined(addrBlock[..]) == BlockAt(scratch[..], 256)
    {
      for i := 0 to 256
        invariant forall k :: 0 <= k < i ==> addrBlock[k] == scratch[256 + k]
      {
        addrBlock[i] := scratch[256 + i];
      }
      assert addrBlock[..] == scratch[..][256..512];
    }

    /** J1 and J2 of a step. */
    method Draw(p: Params, pass: u32, slice: nat, lane: u32, idx: nat) returns (j1: u32, j2: u32)
      requires Supported(p) && Valid(p) && lane < p.lanes && Visited(SegLen(p), pass, slice, idx)
      requires DataIndependent(p, pass, slice) ==> Joined(addrBlock[..]) == AddressBlock(p, pass, slice, lane, idx / 128 + 1)
      ensures Join(j1, j2) == PseudoRandom(p, MemOf(p, B[..]), pass, slice, lane, idx)
    {
      hide SegLen, AddressBlock, Previous, Supported, Join;
      if DataIndependent(p, pass, slice) {
        var k := idx % 128;
        j1, j2 := addrBlock[2 * k], addrBlock[2 * k + 1];
      } else {
        WrapBounded(SegLen(p), slice, idx);
        var prev := Previous(SegLen(p), slice, idx);
        CellInside(p, lane, prev, B.Length);
        var off := 256 * Cell(p, lane, prev);
        j1, j2 := B[off], B[off + 1];
        FirstWord(B[..], off);
      }
    }

    /** One step: reference index, then compression in place. */
    method DoStep(p: Params, pass: u32, slice: nat, lane: u32, idx: nat)
      requires Supported(p) && Valid(p) && lane < p.lanes && Visited(SegLen(p), pass, slice, idx)
      requires DataIndependent(p, pass, slice) ==> Joined(addrBlock[..]) == AddressBlock(p, pass, slice, lane, idx / 128 + 1)
      modifies B, R, Q, S
      ensures MemOf(p, B[..]) == Step(p, old(MemOf(p, B[..])), pass, slice, lane, idx)
    {
      hide SegLen, AddressBlock, Previous, Current, Supported, Joined, Compressed, PseudoRandom, Reference, RefLane, Cell, BlockAt, MemOf;
      ghost var mem := MemOf(p, B[..]);
      ghost var before := B[..];
      var s := SegLen(p);
      var j1, j2 := Draw(p, pass, slice, lane, idx);
      JoinSplits(j1, j2);
      var refLane, refPos := FindReference(s, pass, slice, lane, p.lanes, idx, j1, j2);
      var cur, prev := Current(s, slice, idx), Previous(s, slice, idx);
      WrapBounded(s, slice, idx);
      CellInside(p, lane, cur, B.Length);
      CellInside(p, lane, prev, B.Length);
      CellInside(p, refLane, refPos, B.Length);
      AgCompress(B, 256 * Cell(p, lane, prev), 256 * Cell(p, refLane, refPos), 256 * Cell(p, lane, cur),
        pass > 0 && p.version == 0x13, R, Q, S);
      MemUpdate(p, before, B[..], lane, cur);
    }

    /**
      One segment. The address block is shared by all lanes; it is regenerated at the start of
      the segment and whenever the place in it wraps, so it always belongs to this
      segment and the right counter when it is used.
     */
    method FillSegment(p: Params, pass: u32, slice: nat, lane: u32)
      requires Supported(p) && Valid(p) && lane < p.lanes && slice < 4
      modifies B, R, Q, S, addrBlock, scratch
      ensures MemOf(p, B[..]) == Segment(p, old(MemOf(p, B[..])), pass, slice, lane, SegLen(p))
    {
      hide SegLen, AddressBlock, Joined, MemOf, Step;
      ghost var mem := MemOf(p, B[..]);
      var dataIndependent := DataIndependent(p, pass, slice);
      var addrCounter := 0;
      var startIdx := FirstIdx(pass, slice);
      assert Segment(p, mem, pass, slice, lane, startIdx) == mem;
      for idx := startIdx to SegLen(p)
        invariant MemOf(p, B[..]) == Segment(p, mem, pass, slice, lane, idx)
        invariant dataIndependent && idx > startIdx ==> addrCounter == (idx - 1) / 128 + 1
        invariant dataIndependent && idx > startIdx ==> Joined(addrBlock[..]) == AddressBlock(p, pass, slice, lane, (idx - 1) / 128 + 1)
        invariant idx == startIdx ==> addrCounter == 0
      {
        if dataIndependent {
          var k := idx % 128;
          if k == 0 || (idx == startIdx && addrCounter == 0) {
            addrCounter := idx / 128 + 1;
            RefreshAddresses(p, pass, slice, lane, addrCounter);
          }
          assert idx / 128 + 1 == addrCounter;
        }
        DoStep(p, pass, slice, lane, idx);
      }
    }

    /** All lanes of a slice, in increasing order. */
    method FillSlice(p: Params, pass: u32, slice: nat)
      requires Supported(p) && Valid(p) && slice < 4
      modifies B, R, Q, S, addrBlock, scratch
      ensures MemOf(p, B[..]) == Slice(p, old(MemOf(p, B[..])), pass, slice, Lanes(p.lanes))
    {
      hide SegLen, MemOf, Segment, Supported;
      ghost var mem := MemOf(p, B[..]);
      for lane := 0 to p.lanes
        invariant MemOf(p, B[..]) == Slice(p, mem, pass, slice, Lanes(lane))
      {
        FillSegment(p, pass, slice, lane);
        assert Lanes(lane + 1)[..lane] == Lanes(lane);
      }
    }

    method FillMemory(p: Params)
      requires Supported(p) && Valid(p)
      modifies B, R, Q, S, addrBlock, scratch
      ensures MemOf(p, B[..]) == Filled(p, old(MemOf(p, B[..])), 4 * p.passes)
    {
      hide SegLen, MemOf, Slice, Supported, Filled;
      ghost var mem := MemOf(p, B[..]);
      NothingFilled(p, mem);
      for pass := 0 to p.passes
        invariant MemOf(p, B[..]) == Filled(p, mem, 4 * pass)
      {
        for slice := 0 to 4
          invariant MemOf(p, B[..]) == Filled(p, mem, 4 * pass + slice)
        {
          FillSlice(p, pass, slice);
          FilledNext(p, mem, pass, slice);
        }
      }
    }

    /** Writes the first two blocks of every lane. */
    method Seed(p: Params, h0: seq<byte>)
      requires Supported(p) && Valid(p) && |h0| == 64
      modifies B
      ensures MemOf(p, B[..]) == Seeded(p, old(MemOf(p, B[..])), h0, p.lanes)
    {
      hide SegLen, MemOf, Supported, HPrimeSpec, Le32;
      ghost var mem := MemOf(p, B[..]);
      for lane := 0 to p.lanes
        invariant MemOf(p, B[..]) == Seeded(p, mem, h0, lane)
      {
        var blk := HPrime(h0 + Le32(0) + Le32(lane), 1024);
        WriteBlock(p, lane, 0, blk);
        blk := HPrime(h0 + Le32(1) + Le32(lane), 1024);
        WriteBlock(p, lane, 1, blk);
      }
    }

    method WriteBlock(p: Params, lane: nat, pos: nat, blk: seq<byte>)
      requires Supported(p) && Valid(p) && |blk| == 1024 && lane < p.lanes && pos < LaneLength(p)
      modifies B
      ensures MemOf(p, B[..]) == SetBlock(p, old(MemOf(p, B[..])), lane, pos, BytesBlock(blk))
    {
      hide SegLen, Supported, LaneLength, Cell, MemOf, Le64;
      ghost var before := B[..];
      CellInside(p, lane, pos, B.Length);
      var base := 256 * Cell(p, lane, pos);
      for i := 0 to 256
        invariant forall k :: 0 <= k < i ==> B[base + k] == FourBytes(blk[4 * k], blk[4 * k + 1], blk[4 * k + 2], blk[4 * k + 3])
        invariant forall k :: 0 <= k < B.Length && !(base <= k < base + i) ==> B[k] == before[k]
      {
        B[base + i] := FourBytes(blk[4 * i], blk[4 * i + 1], blk[4 * i + 2], blk[4 * i + 3]);
      }
      ReadBlock(B[..], base, blk);
      MemUpdate(p, before, B[..], lane, pos);
    }

    /** XORs the last block of every lane, and serializes the result. */
    method Finish(p: Params) returns (bytes: seq<byte>)
      requires Supported(p) && Valid(p)
      ensures bytes == BlockBytes(LastColumn(p, MemOf(p, B[..]), p.lanes))
    {
      hide SegLen, MemOf, Supported, Joined, Cell, BlockAt, ZeroBlock, LaneLength, BlockBytes;
      var final := new u32[256](_ => 0);
      AllZero(final[..]);
      LaneNotEmpty(p);
      for lane := 0 to p.lanes
        invariant Joined(final[..]) == LastColumn(p, MemOf(p, B[..]), lane)
      {
        CellInside(p, lane, LaneLength(p) - 1, B.Length);
        XorInto(final, 256 * Cell(p, lane, LaneLength(p) - 1));
      }
      bytes := Serialize(final);
    }

    method XorInto(final: array<u32>, off: nat)
      requires final.Length == 256 && final != B && off + 256 <= B.Length
      modifies final
      ensures Joined(final[..]) == XorBlocks(old(Joined(final[..])), BlockAt(B[..], off))
    {
      hide Xor64, BitXor, ToUint32, Join;
      for i := 0 to 256
        invariant forall k :: 0 <= k < i ==> final[k] == ToUint32(BitXor(old(final[k]), B[off + k]))
        invariant forall k :: i <= k < 256 ==> final[k] == old(final[k])
      {
        final[i] := ToUint32(BitXor(final[i], B[off + i]));
      }
      forall w | 0 <= w < 128 ensures Joined(final[..])[w] == Xor64(old(Joined(final[..])[w]), BlockAt(B[..], off)[w]) {
        WordAt(B[..], off, w);
        XorPair(old(final[2 * w]), old(final[2 * w + 1]), B[off + 2 * w], B[off + 2 * w + 1]);
      }
    }
  }

  lemma WordAt(s: seq<u32>, off: nat, w: nat)
    requires off + 256 <= |s| && w < 128
    ensures BlockAt(s, off)[w] == Join(s[off + 2 * w], s[off + 2 * w + 1])
  {
    assert s[off..off + 256][2 * w] == s[off + 2 * w] && s[off..off + 256][2 * w + 1] == s[off + 2 * w + 1];
  }

  lemma ZeroWindow(s: seq<u32>, off: nat)
    requires off + 256 <= |s| && forall k :: off <= k < off + 256 ==> s[k] == 0
    ensures BlockAt(s, off) == ZeroBlock()
  {
    forall w | 0 <= w < 128 ensures BlockAt(s, off)[w] == 0 {
      WordAt(s, off, w);
    }
  }

  /** The input block as the program lays it out: seven low halves, everything else zero. */
  lemma InputWindow(p: Params, pass: u32, slice: nat, lane: u32, counter: u32, s: seq<u32>)
    requires Supported(p) && slice < 4 && |s| == 768
    requires s[256] == pass && s[258] == lane && s[260] == slice && s[262] == 4 * p.lanes * SegLen(p)
    requires s[264] == p.passes && s[266] == p.variant && s[268] == counter
    requires forall k :: 256 <= k < 512 && (k % 2 == 1 || k > 268) ==> s[k] == 0
    ensures BlockAt(s, 256) == AddressInput(p, pass, slice, lane, counter)
  {
    hide SegLen, BlockAt;
    forall w | 0 <= w < 128 ensures BlockAt(s, 256)[w] == AddressInput(p, pass, slice, lane, counter)[w] {
      WordAt(s, 256, w);
      assert s[257 + 2 * w] == 0;
    }
  }

  lemma FirstWord(s: seq<u32>, off: nat)
    requires off + 256 <= |s|
    ensures BlockAt(s, off)[0] == Join(s[off], s[off + 1])
  {
    WordAt(s, off, 0);
  }

  lemma JoinSplits(lo: u32, hi: u32)
    ensures Join(lo, hi) % W32 == lo && Join(lo, hi) / W32 == hi
  {
  }

  /** The source's computation of the referenced lane and block. */
  method FindReference(segLen: nat, pass: nat, slice: nat, lane: nat, lanes: nat, idx: nat, j1: u32, j2: u32) returns (refLane: nat, refPos: nat)
    requires Visited(segLen, pass, slice, idx) && lane < lanes
    ensures refLane == RefLane(pass, slice, lane, lanes, j2) < lanes
    ensures RefArea(segLen, pass, slice, idx, refLane == lane) > 0
    ensures refPos == Reference(segLen, pass, slice, idx, refLane == lane, j1) < 4 * segLen
  {
    hide Allowed;
    var q := 4 * segLen;
    refLane := if pass == 0 && slice == 0 then lane else j2 % lanes;
    var sameLane := refLane == lane;
    ReferenceAllowed(segLen, pass, slice, idx, sameLane, j1);
    var refArea: int;
    if pass == 0 {
      if slice == 0 {
        refArea := idx - 1;
      } else if sameLane {
        refArea := slice * segLen + idx - 1;
      } else {
        refArea := slice * segLen + (if idx == 0 then -1 else 0);
      }
    } else if sameLane {
      refArea := q - segLen + idx - 1;
    } else {
      refArea := q - segLen + (if idx == 0 then -1 else 0);
    }
    var x := UmulHi(j1);
    var rel := refArea - 1 - refArea * x / 0x1_0000_0000;
    RelInWindow(refArea, j1);
    var startPos := if pass == 0 then 0 else (slice + 1) % 4 * segLen;
    refPos := (startPos + rel) % q;
  }

  // ---- The whole function, as the RFC states it ----

  function Lanes(n: nat): (r: seq<nat>)
    ensures |r| == n && forall k :: 0 <= k < n ==> r[k] == k
  {
    seq(n, k => k)
  }

  /** The memory after n slices, four to a pass. */
  function Filled(p: Params, mem: Memory, n: nat): (r: Memory)
    requires Supported(p) && Shape(p, mem) && n <= 4 * p.passes
    ensures Shape(p, r)
  {
    if n == 0 then mem else Slice(p, Filled(p, mem, n - 1), (n - 1) / 4, (n - 1) % 4, Lanes(p.lanes))
  }

  lemma NothingFilled(p: Params, mem: Memory)
    requires Supported(p) && Shape(p, mem)
    ensures Filled(p, mem, 0) == mem
  {
  }

  lemma {:induction false} FilledNext(p: Params, mem: Memory, pass: nat, slice: nat)
    requires Supported(p) && Shape(p, mem) && pass < p.passes && slice < 4
    ensures Filled(p, mem, 4 * pass + slice + 1) == Slice(p, Filled(p, mem, 4 * pass + slice), pass, slice, Lanes(p.lanes))
  {
    hide SegLen, Supported, Slice, Shape;
    DivModUnique(4 * pass + slice, 4, pass, slice);
  }

  function SetBlock(p: Params, mem: Memory, lane: nat, pos: nat, block: Block): (r: Memory)
    requires p.lanes > 0 && Shape(p, mem) && lane < p.lanes && pos < LaneLength(p)
    ensures Shape(p, r)
  {
    var row: seq<Block> := mem[lane];
    mem[lane := row[pos := block]]
  }

  /** 1024 bytes as 128 little-endian words. */
  function BytesBlock(bytes: seq<byte>): Block
    requires |bytes| == 1024
  {
    seq(128, i requires 0 <= i < 128 => Le64(bytes[8 * i..8 * i + 8]))
  }

  /** The first two blocks of the lanes below n: H'(H0 || LE32(j) || LE32(lane)). */
  function Seeded(p: Params, mem: Memory, h0: seq<byte>, n: nat): (r: Memory)
    requires p.lanes > 0 && Shape(p, mem) && n <= p.lanes
    ensures Shape(p, r)
  {
    if n == 0 then mem
    else
      var m := Seeded(p, mem, h0, n - 1);
      var m := SetBlock(p, m, n - 1, 0, BytesBlock(HPrimeSpec(h0 + Le32(0) + Le32(n - 1), 1024)));
      SetBlock(p, m, n - 1, 1, BytesBlock(HPrimeSpec(h0 + Le32(1) + Le32(n - 1), 1024)))
  }

  function LastColumn(p: Params, mem: Memory, n: nat): Block
    requires p.lanes > 0 && Shape(p, mem) && n <= p.lanes
  {
    if n == 0 then ZeroBlock() else XorBlocks(LastColumn(p, mem, n - 1), mem[n - 1][LaneLength(p) - 1])
  }

  function BlockBytes(b: Block): (r: seq<byte>)
    ensures |r| == 1024
  {
    seq(1024, i requires 0 <= i < 1024 => DigitIsByte(b[i / 8], Pow256(i % 8)))
  }

  function Emptied(p: Params): (mem: Memory)
    requires p.lanes > 0
    ensures Shape(p, mem)
  {
    seq(p.lanes, _ => seq(LaneLength(p), _ => ZeroBlock()))
  }

  /** Section 3.2: the 64-byte seed H0. */
  function H0(p: Params, password: seq<byte>, salt: seq<byte>): (h: seq<byte>)
    ensures |h| == 64
  {
    Digest(Le32(p.lanes) + Le32(p.tagLen) + Le32(p.memKiB) + Le32(p.passes) + Le32(p.version) + Le32(p.variant)
      + Le32(|password|) + password + Le32(|salt|) + salt + Le32(0) + Le32(0), 64)
  }

  function Tag(p: Params, password: seq<byte>, salt: seq<byte>): seq<byte>
    requires Supported(p) && p.tagLen > 0
  {
    var mem := Filled(p, Seeded(p, Emptied(p), H0(p, password, salt), p.lanes), 4 * p.passes);
    HPrimeSpec(BlockBytes(LastColumn(p, mem, p.lanes)), p.tagLen)
  }

  // ---- Glue ----

  lemma LaneNotEmpty(p: Params)
    requires p.lanes > 0
    ensures LaneLength(p) >= 8
  {
  }

  lemma AllZero(s: seq<u32>)
    requires |s| == 256 && forall k :: 0 <= k < 256 ==> s[k] == 0
    ensures Joined(s) == ZeroBlock()
  {
  }

  lemma EmptyMemory(p: Params, s: seq<u32>)
    requires Fits(p, |s|) && forall k :: 0 <= k < |s| ==> s[k] == 0
    ensures MemOf(p, s) == Emptied(p)
  {
    hide SegLen, BlockAt, Cell, LaneLength;
    forall l | 0 <= l < p.lanes ensures MemOf(p, s)[l] == Emptied(p)[l] {
      forall pos | 0 <= pos < LaneLength(p) ensures MemOf(p, s)[l][pos] == ZeroBlock() {
        CellInside(p, l, pos, |s|);
        ZeroWindow(s, 256 * Cell(p, l, pos));
      }
    }
  }

  lemma ReadBlock(s: seq<u32>, base: nat, blk: seq<byte>)
    requires base + 256 <= |s| && |blk| == 1024
    requires forall k :: 0 <= k < 256 ==> s[base + k] == FourBytes(blk[4 * k], blk[4 * k + 1], blk[4 * k + 2], blk[4 * k + 3])
    ensures BlockAt(s, base) == BytesBlock(blk)
  {
    hide BlockAt, Join, FourBytes, Le64;
    forall w | 0 <= w < 128 ensures BlockAt(s, base)[w] == BytesBlock(blk)[w] {
      WordAt(s, base, w);
      EightBytes(blk, 8 * w);
      ghost var even, odd := 2 * w, 2 * w + 1;
      assert s[base + even] == FourBytes(blk[4 * even], blk[4 * even + 1], blk[4 * even + 2], blk[4 * even + 3]);
      assert s[base + odd] == FourBytes(blk[4 * odd], blk[4 * odd + 1], blk[4 * odd + 2], blk[4 * odd + 3]);
      assert 4 * even == 8 * w && 4 * odd == 8 * w + 4;
    }
  }

  lemma EightBytes(s: seq<byte>, o: nat)
    requires o + 8 <= |s|
    ensures Le64(s[o..o + 8]) == Join(FourBytes(s[o], s[o + 1], s[o + 2], s[o + 3]), FourBytes(s[o + 4], s[o + 5], s[o + 6], s[o + 7]))
  {
    var low, high := s[o..o + 4], s[o + 4..o + 8];
    assert low + high == s[o..o + 8];
    LeNatConcat(low, high);
    LeNatBound(low);
    LeNatFour(low);
    LeNatFour(high);
  }

  /** setUint32(i * 4, final[i], little-endian) for every half-word. */
  method Serialize(final: array<u32>) returns (bytes: seq<byte>)
    requires final.Length == 256
    ensures bytes == BlockBytes(Joined(final[..]))
  {
    hide Le32, DigitIsByte, Joined;
    bytes := [];
    for i := 0 to 256
      invariant |bytes| == 4 * i
      invariant forall k :: 0 <= k < 4 * i ==> bytes[k] == Le32(final[k / 4])[k % 4]
    {
      bytes := bytes + Le32(final[i]);
    }
    forall k | 0 <= k < 1024 ensures bytes[k] == BlockBytes(Joined(final[..]))[k] {
      DigitOfHalves(final[..], k);
    }
  }

  lemma {:induction false} DigitOfHalves(s: seq<u32>, k: nat)
    requires |s| == 256 && k < 1024
    ensures Le32(s[k / 4])[k % 4] == DigitIsByte(Joined(s)[k / 8], Pow256(k % 8))
  {
    hide DigitIsByte, Join;
    var lo, hi, j := s[2 * (k / 8)], s[2 * (k / 8) + 1], k % 8;
    ByteOfPair(lo, hi, j);
    assert Joined(s)[k / 8] == Join(lo, hi);
    assert Pow256(1) == 0x100 && Pow256(2) == 0x1_0000 && Pow256(3) == 0x100_0000;
    if j < 4 {
      assert k / 4 == 2 * (k / 8) && k % 4 == j;
    } else {
      assert k / 4 == 2 * (k / 8) + 1 && k % 4 == j - 4;
    }
  }

  datatype Outcome = Derived(tag: seq<byte>) | Unsupported

  /** The pre-hash of every parameter, both inputs and two empty fields. */
  method InitialHash(p: Params, password: seq<byte>, salt: seq<byte>) returns (h: seq<byte>)
    requires |password| < W32 && |salt| < W32
    ensures h == H0(p, password, salt)
  {
    hide Digest, Le32;
    var header := Le32(p.lanes) + Le32(p.tagLen) + Le32(p.memKiB) + Le32(p.passes) + Le32(p.version) + Le32(p.variant)
      + Le32(|password|) + password + Le32(|salt|) + salt + Le32(0) + Le32(0);
    var out := Hash(header, 64);
    h := out[..];
  }

  /** argon2 of the reader. */
  method RunArgon2(p: Params, password: seq<byte>, salt: seq<byte>) returns (r: Outcome)
    requires Supported(p) && p.tagLen > 0 && |password| < W32 && |salt| < W32
    ensures r == if p.version == 0x13 || p.version == 0x10 then Derived(Tag(p, password, salt)) else Unsupported
  {
    assert p.lanes > 0;
    hide SegLen, MemOf, Supported, H0, HPrimeSpec, Filled, Seeded, LastColumn, BlockBytes, Emptied, Digest, Shape, LaneLength, ZeroBlock;
    if p.version != 0x13 && p.version != 0x10 {
      return Unsupported;
    }
    var h := InitialHash(p, password, salt);
    var m := new Machine(p);
    m.Seed(p, h);
    m.FillMemory(p);
    var final := m.Finish(p);
    var tag := HPrime(final, p.tagLen);
    r := Derived(tag);
  }
}
