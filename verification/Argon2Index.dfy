/**
  Which block an Argon2 step refers to (RFC 9106, section 3.4): the index arithmetic of
  web/kdbx-read.js, proved to enumerate exactly the blocks the RFC allows.

  A lane is four slices of segLen blocks. Step (pass, slice, lane, idx) writes block
  slice · segLen + idx of its lane.
 */
module Argon2Index {
  import opened Bits
  import opened JsInt
  import opened Argon2Compress

  /** A step of the schedule; the first two blocks of every lane are filled beforehand. */
  predicate Visited(segLen: nat, pass: nat, slice: nat, idx: nat) {
    segLen >= 2 && slice < 4 && idx < segLen && (pass == 0 && slice == 0 ==> idx >= 2)
  }

  function Current(segLen: nat, slice: nat, idx: nat): nat {
    slice * segLen + idx
  }

  /** (curIdx - 1 + q) % q */
  function Previous(segLen: nat, slice: nat, idx: nat): nat
    requires segLen > 0
  {
    (slice * segLen + idx - 1 + 4 * segLen) % (4 * segLen)
  }

  // ---- What the RFC allows ----

  /**
    Block pos of a lane may be referred to. In the first pass the block must lie in a finished
    slice; later every other slice still holds finished blocks, of this pass or the previous
    one. The step's own lane adds what this segment has already written. Left out are the
    previous block, in the own lane, and the last finished block, in another lane, when
    the step opens its segment.
   */
  predicate Allowed(segLen: nat, pass: nat, slice: nat, idx: nat, sameLane: bool, pos: nat)
    requires segLen > 0
  {
    var finished := if pass == 0 then pos < slice * segLen else pos < slice * segLen || (slice + 1) * segLen <= pos < 4 * segLen;
    var written := sameLane && slice * segLen <= pos < slice * segLen + idx;
    (finished || written) && ((sameLane || idx == 0) ==> pos != Previous(segLen, slice, idx))
  }

  // ---- What the program computes ----

  function RefArea(segLen: nat, pass: nat, slice: nat, idx: nat, sameLane: bool): int {
    var q := 4 * segLen;
    if pass == 0 then
      if slice == 0 then idx - 1
      else if sameLane then slice * segLen + idx - 1
      else slice * segLen + (if idx == 0 then -1 else 0)
    else if sameLane then q - segLen + idx - 1
    else q - segLen + (if idx == 0 then -1 else 0)
  }

  function StartPos(segLen: nat, pass: nat, slice: nat): nat {
    if pass == 0 then 0 else (slice + 1) % 4 * segLen
  }

  /** The block reached from the start of the window by rel steps, around the ring. */
  function RefPos(segLen: nat, pass: nat, slice: nat, rel: nat): nat
    requires segLen > 0
  {
    (StartPos(segLen, pass, slice) + rel) % (4 * segLen)
  }

  // ---- The window ----

  lemma WindowSize(segLen: nat, pass: nat, slice: nat, idx: nat, sameLane: bool)
    requires Visited(segLen, pass, slice, idx) && (pass == 0 && slice == 0 ==> sameLane)
    ensures 1 <= RefArea(segLen, pass, slice, idx, sameLane) <= 4 * segLen - 2
  {
    if slice == 1 { } else if slice == 2 { } else if slice == 3 { }
  }

  lemma WrapOnce(n: nat, q: nat)
    requires q > 0 && n < 2 * q
    ensures n % q == if n < q then n else n - q
  {
    if n < q {
      DivModUnique(n, q, 0, n);
    } else {
      DivModUnique(n, q, 1, n - q);
    }
  }

  lemma SliceStarts(segLen: nat, slice: nat)
    requires slice < 4
    ensures slice * segLen == (if slice == 0 then 0 else if slice == 1 then segLen else if slice == 2 then 2 * segLen else 3 * segLen)
    ensures (slice + 1) * segLen == slice * segLen + segLen
    ensures (slice + 1) % 4 * segLen == if slice == 3 then 0 else slice * segLen + segLen
  {
    if slice == 0 { } else if slice == 1 { } else if slice == 2 { } else { assert slice == 3; }
  }

  /** Every distance inside the window leads to an allowed block... */
  lemma WindowSound(segLen: nat, pass: nat, slice: nat, idx: nat, sameLane: bool, rel: nat)
    requires Visited(segLen, pass, slice, idx) && (pass == 0 && slice == 0 ==> sameLane)
    requires rel < RefArea(segLen, pass, slice, idx, sameLane)
    ensures RefPos(segLen, pass, slice, rel) < 4 * segLen
    ensures Allowed(segLen, pass, slice, idx, sameLane, RefPos(segLen, pass, slice, rel))
  {
    WindowSize(segLen, pass, slice, idx, sameLane);
    SliceStarts(segLen, slice);
    RefPosIs(segLen, pass, slice, rel);
    PreviousIs(segLen, slice, idx);
    hide RefPos, Previous, StartPos;
  }

  lemma RefPosIs(segLen: nat, pass: nat, slice: nat, rel: nat)
    requires segLen > 0 && slice < 4 && rel < 4 * segLen
    ensures var from := if pass == 0 || slice == 3 then 0 else slice * segLen + segLen;
            StartPos(segLen, pass, slice) == from
            && RefPos(segLen, pass, slice, rel) == if from + rel < 4 * segLen then from + rel else from + rel - 4 * segLen
  {
    SliceStarts(segLen, slice);
    WrapOnce(StartPos(segLen, pass, slice) + rel, 4 * segLen);
  }

  lemma PreviousIs(segLen: nat, slice: nat, idx: nat)
    requires segLen > 0 && slice < 4 && idx < segLen
    ensures Previous(segLen, slice, idx) == if slice == 0 && idx == 0 then 4 * segLen - 1 else slice * segLen + idx - 1
  {
    SliceStarts(segLen, slice);
    WrapOnce(slice * segLen + idx - 1 + 4 * segLen, 4 * segLen);
  }

  /** The distance of a block from the start of the window. */
  function Distance(segLen: nat, pass: nat, slice: nat, pos: nat): nat {
    var start := StartPos(segLen, pass, slice);
    if pos >= start then pos - start else pos + 4 * segLen - start
  }

  /** ... every allowed block is reached from inside the window... */
  lemma WindowComplete(segLen: nat, pass: nat, slice: nat, idx: nat, sameLane: bool, pos: nat)
    requires Visited(segLen, pass, slice, idx) && (pass == 0 && slice == 0 ==> sameLane)
    requires pos < 4 * segLen && Allowed(segLen, pass, slice, idx, sameLane, pos)
    ensures Distance(segLen, pass, slice, pos) < RefArea(segLen, pass, slice, idx, sameLane)
    ensures RefPos(segLen, pass, slice, Distance(segLen, pass, slice, pos)) == pos
  {
    var q := 4 * segLen;
    if slice == 0 { } else if slice == 1 { } else if slice == 2 { } else { assert slice == 3; }
    WrapOnce(slice * segLen + idx - 1 + q, q);
    WrapOnce(StartPos(segLen, pass, slice) + Distance(segLen, pass, slice, pos), q);
  }

  /** ... and by exactly one distance. */
  lemma WindowInjective(segLen: nat, pass: nat, slice: nat, idx: nat, sameLane: bool, rel: nat)
    requires Visited(segLen, pass, slice, idx) && (pass == 0 && slice == 0 ==> sameLane)
    requires rel < RefArea(segLen, pass, slice, idx, sameLane)
    ensures Distance(segLen, pass, slice, RefPos(segLen, pass, slice, rel)) == rel
  {
    WindowSize(segLen, pass, slice, idx, sameLane);
    if slice == 0 { } else if slice == 1 { } else if slice == 2 { } else { assert slice == 3; }
    WrapOnce(StartPos(segLen, pass, slice) + rel, 4 * segLen);
  }

  // ---- The pseudo-random distance ----

  /** The source's umulHi: floor(a * a / 2^32) from 16-bit limbs. */
  method UmulHi(a: u32) returns (r: u32)
    ensures r == a * a / W32
  {
    var x0: int, x1: int := a % 0x1_0000, a / 0x1_0000;
    var mid := x1 * x0 * 2;
    var tl := x0 * x0 + mid % 65536 * 65536;
    Limbs(a, a);
    assert x1 * x0 + x0 * x1 == mid;
    var th := x1 * x1 + mid / 65536 + tl / 0x1_0000_0000;
    r := ToUint32(th);
    QuotientOfSum(a * a, tl % W32, th);
  }

  lemma QuotientOfSum(n: nat, l: u32, h: u32)
    requires n == l + W32 * h
    ensures n / W32 == h
  {
    DivModUnique(n, W32, h, l);
  }

  function SquareHigh(j1: u32): u32 {
    WordProduct(j1, j1);
    j1 * j1 / W32
  }

  /** refArea - 1 - floor(refArea * x / 2^32), with x the high half of J1 squared. */
  function Rel(area: nat, j1: u32): int {
    area - 1 - area * SquareHigh(j1) / W32
  }

  /** Below 2^21 blocks per lane the product is an exact double; the distance is always inside the window. */
  lemma RelInWindow(area: nat, j1: u32)
    requires area > 0
    ensures 0 <= Rel(area, j1) < area
    ensures area <= 0x20_0000 ==> area * SquareHigh(j1) < 0x20_0000_0000_0000
  {
    var x := SquareHigh(j1);
    assert 0 <= area * x <= area * (W32 - 1) by {
      ProductMonotone(area, x, W32 - 1);
      assert area * x >= 0;
    }
    if area <= 0x20_0000 {
      assert area * (W32 - 1) <= 0x20_0000 * (W32 - 1);
    }
    FloorBelow(area * x, area);
  }

  lemma FloorBelow(n: nat, area: nat)
    requires n <= area * (W32 - 1) && area > 0
    ensures 0 <= n / W32 < area
  {
  }

  /** The lane and block a step refers to. */
  function RefLane(pass: nat, slice: nat, lane: nat, lanes: nat, j2: u32): nat
    requires lanes > 0
  {
    if pass == 0 && slice == 0 then lane else j2 % lanes
  }

  function Reference(segLen: nat, pass: nat, slice: nat, idx: nat, sameLane: bool, j1: u32): nat
    requires segLen > 0 && RefArea(segLen, pass, slice, idx, sameLane) > 0
  {
    RelInWindow(RefArea(segLen, pass, slice, idx, sameLane), j1);
    RefPos(segLen, pass, slice, Rel(RefArea(segLen, pass, slice, idx, sameLane), j1))
  }

  /**
    For every step and every J1: the referenced block is in the lane, is allowed by the RFC,
    and in the step's own lane is neither the block being written nor the one before it.
   */
  lemma ReferenceAllowed(segLen: nat, pass: nat, slice: nat, idx: nat, sameLane: bool, j1: u32)
    requires Visited(segLen, pass, slice, idx) && (pass == 0 && slice == 0 ==> sameLane)
    ensures RefArea(segLen, pass, slice, idx, sameLane) > 0
    ensures var pos := Reference(segLen, pass, slice, idx, sameLane, j1);
      && pos < 4 * segLen && Allowed(segLen, pass, slice, idx, sameLane, pos)
      && (sameLane ==> pos != Current(segLen, slice, idx) && pos != Previous(segLen, slice, idx))
      && (!sameLane ==> !(slice * segLen <= pos < (slice + 1) * segLen))
  {
    hide Rel;
    WindowSize(segLen, pass, slice, idx, sameLane);
    var area := RefArea(segLen, pass, slice, idx, sameLane);
    RelInWindow(area, j1);
    WindowSound(segLen, pass, slice, idx, sameLane, Rel(area, j1));
  }
}
