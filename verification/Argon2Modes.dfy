/**
  Where Argon2 takes its references from, and what becomes of the block it overwrites (RFC 9106, sections 3.4.1 and 3.2):
  the variants and versions told apart by what they do to arbitrary memories.
 */
module Argon2Modes {
  import opened Bits
  import opened JsInt
  import opened Argon2Compress
  import opened Argon2Index
  import opened Argon2

  /**
    How far back from the newest block of the area the reference lies (RFC 9106, section 3.4.2): d blocks, for the high
    half x of J1 squared and d the whole part of area · x / 2^32.
   */
  lemma DistanceExact(area: nat, j1: u32)
    requires area > 0
    ensures var x, d := SquareHigh(j1), area - 1 - Rel(area, j1);
            && W32 * x <= j1 * j1 < W32 * (x + 1)
            && W32 * d <= area * x < W32 * (d + 1)
    ensures j1 < 0x1_0000 ==> Rel(area, j1) == area - 1
  {
    WordProduct(j1, j1);
    Floor(j1 * j1);
    ProductNotNegative(area, SquareHigh(j1));
    Floor(area * SquareHigh(j1));
    if j1 < 0x1_0000 {
      ProductMonotone(j1, j1, 0xFFFF);
      assert SquareHigh(j1) == 0 by { Floor(j1 * j1); }
    }
  }

  lemma ProductNotNegative(a: nat, b: nat)
    ensures a * b >= 0
  {
  }

  lemma Floor(n: nat)
    ensures W32 * (n / W32) <= n < W32 * (n / W32 + 1)
  {
  }

  /** The memory is the most blocks below the given size that divide into four slices of each lane, but at least eight per lane. */
  lemma MemorySize(p: Params)
    requires p.lanes > 0
    ensures var blocks := 4 * p.lanes * SegLen(p);
            if p.memKiB >= 8 * p.lanes then blocks <= p.memKiB < blocks + 4 * p.lanes else blocks == 8 * p.lanes
  {
    var n := 4 * p.lanes;
    var q := p.memKiB / n;
    assert p.memKiB == n * q + p.memKiB % n;
    if q < 2 {
      Below(n, q);
    } else {
      ProductMonotone(n, 2, q);
    }
  }

  lemma Below(n: nat, q: nat)
    requires q < 2
    ensures n * q <= n
  {
    if q == 0 { } else { }
  }

  /** In every step that does not use addresses, the word is the first of the lane's previous block. */
  lemma WordFromMemory(p: Params, mem: Memory, pass: u32, slice: nat, lane: u32, idx: nat)
    requires Supported(p) && Shape(p, mem) && lane < p.lanes && Visited(SegLen(p), pass, slice, idx)
    requires p.variant != 1 && !(p.variant == 2 && pass == 0 && slice < 2)
    ensures Previous(SegLen(p), slice, idx) < 4 * SegLen(p)
    ensures PseudoRandom(p, mem, pass, slice, lane, idx) == mem[lane][Previous(SegLen(p), slice, idx)][0]
  {
    hide SegLen, AddressBlock;
    WrapBounded(SegLen(p), slice, idx);
  }

  ghost predicate IgnoresMemory(p: Params, pass: u32, slice: nat, lane: u32, idx: nat)
    requires Supported(p) && lane < p.lanes && Visited(SegLen(p), pass, slice, idx)
  {
    forall a: Memory, b: Memory :: Shape(p, a) && Shape(p, b) ==>
      PseudoRandom(p, a, pass, slice, lane, idx) == PseudoRandom(p, b, pass, slice, lane, idx)
  }

  /** A memory whose blocks all start with the word x. */
  function Uniform(p: Params, x: u64): (mem: Memory)
    requires p.lanes > 0
    ensures Shape(p, mem)
    ensures forall l, pos :: 0 <= l < p.lanes && 0 <= pos < 4 * SegLen(p) ==> mem[l][pos][0] == x
  {
    seq(p.lanes, _ => seq(4 * SegLen(p), _ => seq(128, _ => x)))
  }

  /** References are independent of the data for Argon2i, and for Argon2id in the first half of the first pass; nowhere else. */
  lemma AddressingExact(p: Params, pass: u32, slice: nat, lane: u32, idx: nat)
    requires Supported(p) && lane < p.lanes && Visited(SegLen(p), pass, slice, idx)
    ensures IgnoresMemory(p, pass, slice, lane, idx) <==> p.variant == 1 || (p.variant == 2 && pass == 0 && slice < 2)
  {
    hide SegLen, AddressBlock, Shape, Uniform;
    if !(p.variant == 1 || (p.variant == 2 && pass == 0 && slice < 2)) {
      var a, b := Uniform(p, 0), Uniform(p, 1);
      WordFromMemory(p, a, pass, slice, lane, idx);
      WordFromMemory(p, b, pass, slice, lane, idx);
      assert PseudoRandom(p, a, pass, slice, lane, idx) != PseudoRandom(p, b, pass, slice, lane, idx);
    }
  }

  // ---- The overwritten block ----

  /** b is a but for the block that the step writes. */
  ghost predicate ElsewhereSame(p: Params, a: Memory, b: Memory, slice: nat, lane: nat, idx: nat)
    requires p.lanes > 0 && Shape(p, a) && Shape(p, b)
  {
    forall l, pos :: 0 <= l < p.lanes && 0 <= pos < 4 * SegLen(p) && !(l == lane && pos == Current(SegLen(p), slice, idx)) ==> a[l][pos] == b[l][pos]
  }

  lemma PreviousIsOther(segLen: nat, slice: nat, idx: nat)
    requires segLen >= 2 && slice < 4 && idx < segLen
    ensures Previous(segLen, slice, idx) != Current(segLen, slice, idx)
  {
    PreviousIs(segLen, slice, idx);
    SliceStarts(segLen, slice);
  }

  /**
    The old block counts in later passes of version 0x13 only, where it is xored in: a change of it is the same change
    of the new block. In version 0x10, and in the first pass, it is overwritten.
   */
  lemma OldBlockFolded(p: Params, a: Memory, b: Memory, pass: u32, slice: nat, lane: u32, idx: nat)
    requires Supported(p) && Shape(p, a) && Shape(p, b) && lane < p.lanes && Visited(SegLen(p), pass, slice, idx)
    requires ElsewhereSame(p, a, b, slice, lane, idx)
    ensures Current(SegLen(p), slice, idx) < 4 * SegLen(p)
    ensures var old_a, old_b := a[lane][Current(SegLen(p), slice, idx)], b[lane][Current(SegLen(p), slice, idx)];
            var new_a, new_b := NewBlock(p, a, pass, slice, lane, idx), NewBlock(p, b, pass, slice, lane, idx);
            if pass > 0 && p.version == 0x13 then XorBlocks(new_a, old_a) == XorBlocks(new_b, old_b) else new_a == new_b
  {
    hide SegLen, Supported, AddressBlock, G, Reference, Allowed, RefArea, DataIndependent, Previous, Current, XorBlocks;
    var s := SegLen(p);
    WrapBounded(s, slice, idx);
    PreviousIsOther(s, slice, idx);
    var j := PseudoRandom(p, a, pass, slice, lane, idx);
    assert j == PseudoRandom(p, b, pass, slice, lane, idx);
    var refLane := RefLane(pass, slice, lane, p.lanes, j / W32);
    LaneInRange(pass, slice, lane, p.lanes, j / W32);
    ReferenceAllowed(s, pass, slice, idx, refLane == lane, j % W32);
    var x, y := a[lane][Previous(s, slice, idx)], a[refLane][Reference(s, pass, slice, idx, refLane == lane, j % W32)];
    XorTwice(G(x, y), a[lane][Current(s, slice, idx)]);
    XorTwice(G(x, y), b[lane][Current(s, slice, idx)]);
  }

  lemma XorTwice(x: Block, y: Block)
    ensures XorBlocks(XorBlocks(x, y), y) == x && XorBlocks(XorBlocks(y, x), y) == x
  {
    hide Xor64;
    forall i | 0 <= i < 128 ensures Xor64(Xor64(x[i], y[i]), y[i]) == x[i] && Xor64(Xor64(y[i], x[i]), y[i]) == x[i] {
      WordTwice(x[i], y[i]);
    }
  }

  lemma WordTwice(a: u64, b: u64)
    ensures Xor64(Xor64(a, b), b) == a && Xor64(Xor64(b, a), b) == a
  {
    hide Xor;
    XorCancel(a, b);
    XorCommutes(a, b);
  }
}
