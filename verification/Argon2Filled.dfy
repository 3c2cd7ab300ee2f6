/**
  Argon2 never reads a block it has not written (RFC 9106, section 3.4.2): whatever the memory held beforehand,
  the first pass leaves the same blocks as long as the two first blocks of every lane are the same.
 */
module Argon2Filled {
  import opened JsInt
  import opened Argon2Compress
  import opened Argon2Index
  import opened Argon2
  import opened Argon2Program

  /** The blocks filled when a first-pass step is about to be taken: earlier slices, the seeds, and this segment so far. */
  predicate Done(segLen: nat, slice: nat, ownLane: bool, idx: nat, pos: nat) {
    pos < 2 || pos < slice * segLen || (ownLane && pos < slice * segLen + idx)
  }

  ghost predicate AgreeOnDone(p: Params, slice: nat, lane: nat, idx: nat, a: Memory, b: Memory)
    requires p.lanes > 0 && Shape(p, a) && Shape(p, b)
  {
    forall l, pos :: 0 <= l < p.lanes && 0 <= pos < 4 * SegLen(p) && Done(SegLen(p), slice, l == lane, idx, pos) ==> a[l][pos] == b[l][pos]
  }

  lemma PreviousDone(segLen: nat, slice: nat, idx: nat)
    requires Visited(segLen, 0, slice, idx)
    ensures Previous(segLen, slice, idx) < 4 * segLen
    ensures Done(segLen, slice, true, idx, Previous(segLen, slice, idx))
  {
    SliceStarts(segLen, slice);
    WrapOnce(Current(segLen, slice, idx) - 1 + 4 * segLen, 4 * segLen);
  }

  /** In the first pass everything the RFC allows a step to refer to has been filled. */
  lemma AllowedIsDone(segLen: nat, slice: nat, idx: nat, sameLane: bool, pos: nat)
    requires Visited(segLen, 0, slice, idx) && Allowed(segLen, 0, slice, idx, sameLane, pos)
    ensures Done(segLen, slice, sameLane, idx, pos)
  {
  }

  lemma SameNewBlock(p: Params, a: Memory, b: Memory, slice: nat, lane: u32, idx: nat)
    requires Supported(p) && Shape(p, a) && Shape(p, b) && lane < p.lanes && Visited(SegLen(p), 0, slice, idx)
    requires AgreeOnDone(p, slice, lane, idx, a, b)
    ensures NewBlock(p, a, 0, slice, lane, idx) == NewBlock(p, b, 0, slice, lane, idx)
  {
    hide SegLen, Supported, AddressBlock, G, Reference, Allowed, RefArea, DataIndependent, Previous, Done;
    var s := SegLen(p);
    WrapBounded(s, slice, idx);
    PreviousDone(s, slice, idx);
    var j := PseudoRandom(p, a, 0, slice, lane, idx);
    assert j == PseudoRandom(p, b, 0, slice, lane, idx);
    var refLane := RefLane(0, slice, lane, p.lanes, j / W32);
    LaneInRange(0, slice, lane, p.lanes, j / W32);
    ReferenceAllowed(s, 0, slice, idx, refLane == lane, j % W32);
    AllowedIsDone(s, slice, idx, refLane == lane, Reference(s, 0, slice, idx, refLane == lane, j % W32));
  }

  lemma DoneNext(segLen: nat, slice: nat, ownLane: bool, idx: nat, pos: nat)
    requires Done(segLen, slice, ownLane, idx + 1, pos) && !(ownLane && pos == Current(segLen, slice, idx))
    ensures Done(segLen, slice, ownLane, idx, pos)
  {
  }

  lemma StepAgrees(p: Params, a: Memory, b: Memory, slice: nat, lane: u32, idx: nat)
    requires Supported(p) && Shape(p, a) && Shape(p, b) && lane < p.lanes && Visited(SegLen(p), 0, slice, idx)
    requires AgreeOnDone(p, slice, lane, idx, a, b)
    ensures AgreeOnDone(p, slice, lane, idx + 1, Step(p, a, 0, slice, lane, idx), Step(p, b, 0, slice, lane, idx))
  {
    hide SegLen, Supported, NewBlock, Done, Current;
    SameNewBlock(p, a, b, slice, lane, idx);
    WrapBounded(SegLen(p), slice, idx);
    var a', b' := Step(p, a, 0, slice, lane, idx), Step(p, b, 0, slice, lane, idx);
    forall l, pos | 0 <= l < p.lanes && 0 <= pos < 4 * SegLen(p) && Done(SegLen(p), slice, l == lane, idx + 1, pos)
      ensures a'[l][pos] == b'[l][pos]
    {
      if !(l == lane && pos == Current(SegLen(p), slice, idx)) {
        DoneNext(SegLen(p), slice, l == lane, idx, pos);
      }
    }
  }

  /** Before its first step the segment of a lane has filled nothing but the seeds. */
  lemma NothingYet(segLen: nat, slice: nat, idx: nat, pos: nat)
    requires idx <= FirstIdx(0, slice)
    ensures Done(segLen, slice, true, idx, pos) ==> Done(segLen, slice, false, 0, pos)
  {
  }

  lemma {:induction false} SegmentAgrees(p: Params, a: Memory, b: Memory, slice: nat, lane: u32, n: nat)
    requires Supported(p) && Shape(p, a) && Shape(p, b) && lane < p.lanes && slice < 4 && n <= SegLen(p)
    requires AgreeOnDone(p, slice, p.lanes, 0, a, b)
    ensures AgreeOnDone(p, slice, lane, n, Segment(p, a, 0, slice, lane, n), Segment(p, b, 0, slice, lane, n))
    decreases n
  {
    hide SegLen, Supported, Step, Done;
    if n > FirstIdx(0, slice) {
      SegmentAgrees(p, a, b, slice, lane, n - 1);
      StepAgrees(p, Segment(p, a, 0, slice, lane, n - 1), Segment(p, b, 0, slice, lane, n - 1), slice, lane, n - 1);
    } else {
      forall pos | 0 <= pos < 4 * SegLen(p) && Done(SegLen(p), slice, true, n, pos) ensures a[lane][pos] == b[lane][pos] {
        NothingYet(SegLen(p), slice, n, pos);
      }
      forall l, pos | 0 <= l < p.lanes && 0 <= pos < 4 * SegLen(p) && Done(SegLen(p), slice, l == lane, n, pos) ensures a[l][pos] == b[l][pos] {
        NothingHere(SegLen(p), slice, n, pos);
      }
    }
  }

  lemma NothingHere(segLen: nat, slice: nat, idx: nat, pos: nat)
    ensures Done(segLen, slice, false, idx, pos) == Done(segLen, slice, false, 0, pos)
  {
  }

  lemma SliceDone(segLen: nat, slice: nat, pos: nat)
    requires Done(segLen, slice + 1, false, 0, pos)
    ensures Done(segLen, slice, true, segLen, pos)
  {
  }

  lemma SliceAgrees(p: Params, a: Memory, b: Memory, slice: nat)
    requires Supported(p) && Shape(p, a) && Shape(p, b) && slice < 4
    requires AgreeOnDone(p, slice, p.lanes, 0, a, b)
    ensures AgreeOnDone(p, slice + 1, p.lanes, 0, Slice(p, a, 0, slice, Lanes(p.lanes)), Slice(p, b, 0, slice, Lanes(p.lanes)))
  {
    hide SegLen, Supported, Segment, Slice, Done;
    var order := Lanes(p.lanes);
    forall l, pos | 0 <= l < p.lanes && 0 <= pos < 4 * SegLen(p) && Done(SegLen(p), slice + 1, l == p.lanes, 0, pos)
      ensures Slice(p, a, 0, slice, order)[l][pos] == Slice(p, b, 0, slice, order)[l][pos]
    {
      assert order[l] == l;
      SliceByLanes(p, a, 0, slice, order, l);
      SliceByLanes(p, b, 0, slice, order, l);
      SegmentAgrees(p, a, b, slice, l, SegLen(p));
      SliceDone(SegLen(p), slice, pos);
    }
  }

  lemma {:induction false} FirstPassAgrees(p: Params, a: Memory, b: Memory, n: nat)
    requires Supported(p) && Shape(p, a) && Shape(p, b) && p.passes > 0 && n <= 4
    requires AgreeOnDone(p, 0, p.lanes, 0, a, b)
    ensures AgreeOnDone(p, n, p.lanes, 0, Filled(p, a, n), Filled(p, b, n))
    decreases n
  {
    hide SegLen, Supported, Slice, AgreeOnDone;
    if n > 0 {
      FirstPassAgrees(p, a, b, n - 1);
      SliceAgrees(p, Filled(p, a, n - 1), Filled(p, b, n - 1), n - 1);
    }
  }

  lemma AllDone(segLen: nat, pos: nat)
    requires pos < 4 * segLen
    ensures Done(segLen, 4, false, 0, pos)
  {
  }

  lemma EqualMemories(p: Params, a: Memory, b: Memory)
    requires p.lanes > 0 && Shape(p, a) && Shape(p, b) && AgreeOnDone(p, 4, p.lanes, 0, a, b)
    ensures a == b
  {
    hide SegLen, Done;
    forall l | 0 <= l < p.lanes ensures a[l] == b[l] {
      forall pos | 0 <= pos < 4 * SegLen(p) ensures a[l][pos] == b[l][pos] {
        AllDone(SegLen(p), pos);
      }
    }
  }

  ghost predicate SameSeeds(p: Params, a: Memory, b: Memory)
    requires p.lanes > 0 && Shape(p, a) && Shape(p, b)
  {
    forall l :: 0 <= l < p.lanes ==> a[l][0] == b[l][0] && a[l][1] == b[l][1]
  }

  lemma SeedsAgree(p: Params, a: Memory, b: Memory)
    requires p.lanes > 0 && Shape(p, a) && Shape(p, b) && SameSeeds(p, a, b)
    ensures AgreeOnDone(p, 0, p.lanes, 0, a, b)
  {
    hide SegLen;
    forall l, pos | 0 <= l < p.lanes && 0 <= pos < 4 * SegLen(p) && Done(SegLen(p), 0, l == p.lanes, 0, pos) ensures a[l][pos] == b[l][pos] {
      assert pos == 0 || pos == 1;
    }
  }

  lemma FirstPassSame(p: Params, a: Memory, b: Memory, n: nat)
    requires Supported(p) && Shape(p, a) && Shape(p, b) && p.passes > 0 && n == 4
    requires AgreeOnDone(p, 0, p.lanes, 0, a, b)
    ensures Filled(p, a, n) == Filled(p, b, n)
  {
    assert p.lanes > 0;
    hide Supported, SegLen, Filled, AgreeOnDone;
    FirstPassAgrees(p, a, b, n);
    EqualMemories(p, Filled(p, a, n), Filled(p, b, n));
  }

  /** The memory after the first pass, and so the tag, depends on nothing but the seeds. */
  lemma {:induction false} UnfilledNeverRead(p: Params, a: Memory, b: Memory, n: nat)
    requires p.lanes > 0 && Shape(p, a) && Shape(p, b) && SameSeeds(p, a, b)
    requires Supported(p) && 4 <= n <= 4 * p.passes
    ensures Filled(p, a, n) == Filled(p, b, n)
    decreases n
  {
    hide SegLen, Supported, Slice, AgreeOnDone, SameSeeds, Shape;
    if n == 4 {
      SeedsAgree(p, a, b);
      FirstPassSame(p, a, b, n);
    } else {
      UnfilledNeverRead(p, a, b, n - 1);
    }
  }
}
