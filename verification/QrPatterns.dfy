/**
  The function patterns of web/qr.js: timing, finders, alignment, format and version
  information. Drawing happens by loops over one pair of grids, as in the source; the
  reference says, cell by cell, what must be there in the end.
 */
module QrPatterns {
  import opened Bits
  import opened QrCodewords

  function Size(v: nat): nat {
    4 * v + 17
  }

  // ---- What every cell should be ----

  function Abs(x: int): nat {
    if x < 0 then -x else x
  }

  /** Chebyshev distance: the ring of (r, c) around (cr, cc). */
  function Ring(r: int, c: int, cr: int, cc: int): nat {
    if Abs(r - cr) >= Abs(c - cc) then Abs(r - cr) else Abs(c - cc)
  }

  predicate FinderDark(ring: nat) {
    ring != 2 && ring != 4
  }

  predicate AlignmentDark(ring: nat) {
    ring != 1
  }

  predicate Timing(r: int, c: int) {
    r == 6 || c == 6
  }

  predicate TimingDark(r: int, c: int) {
    (r == 6 && c % 2 == 0) || (c == 6 && r % 2 == 0)
  }

  /** Alignment pattern centre coordinates. */
  function Centers(v: nat): seq<nat>
    requires 1 <= v <= MAX_VERSION
  {
    match v
    case 1 => []
    case 2 => [6, 18]
    case 3 => [6, 22]
    case 4 => [6, 26]
    case 5 => [6, 30]
    case 6 => [6, 34]
    case 7 => [6, 22, 38]
    case 8 => [6, 24, 42]
    case 9 => [6, 26, 46]
    case 10 => [6, 28, 50]
    case 11 => [6, 30, 54]
    case 12 => [6, 32, 58]
    case 13 => [6, 34, 62]
    case 14 => [6, 26, 46, 66]
    case _ => [6, 26, 48, 70]
  }

  /** The three centre pairs that would fall on a finder. */
  predicate OnFinder(n: nat, i: nat, j: nat) {
    (i == 0 && j == 0) || (i == 0 && j == n - 1) || (i == n - 1 && j == 0)
  }

  /** The alignment patterns drawn before the pair (i, j), in drawing order. */
  function PairsBefore(centers: seq<nat>, i: nat, j: nat): seq<(nat, nat)>
    requires i < |centers| && j <= |centers|
    decreases i, j
  {
    var n := |centers|;
    if j == 0 then if i == 0 then [] else PairsBefore(centers, i - 1, n)
    else PairsBefore(centers, i, j - 1) + (if OnFinder(n, i, j - 1) then [] else [(centers[i], centers[j - 1])])
  }

  function AlignmentPairs(v: nat): seq<(nat, nat)>
    requires 1 <= v <= MAX_VERSION
  {
    var centers := Centers(v);
    if |centers| == 0 then [] else PairsBefore(centers, |centers| - 1, |centers|)
  }

  predicate InAlignment(pairs: seq<(nat, nat)>, r: int, c: int) {
    |pairs| > 0 && (Ring(r, c, pairs[|pairs| - 1].0, pairs[|pairs| - 1].1) <= 2 || InAlignment(pairs[..|pairs| - 1], r, c))
  }

  predicate InAlignmentDark(pairs: seq<(nat, nat)>, r: int, c: int) {
    |pairs| > 0 &&
    var ring := Ring(r, c, pairs[|pairs| - 1].0, pairs[|pairs| - 1].1);
    if ring <= 2 then AlignmentDark(ring) else InAlignmentDark(pairs[..|pairs| - 1], r, c)
  }

  /** Format cells: around the top-left finder, and split over the other two. */
  predicate Format(size: nat, r: int, c: int) {
    (c == 8 && ((0 <= r <= 8 && r != 6) || size - 8 <= r < size)) ||
    (r == 8 && ((0 <= c <= 8 && c != 6) || size - 8 <= c < size))
  }

  /** The format bit shown by a format cell; 15 stands for the dark module. */
  function FormatIndex(size: nat, r: int, c: int): nat
    requires size >= 21 && Format(size, r, c)
  {
    if c == 8 && r <= 5 then r
    else if r == 7 && c == 8 then 6
    else if r == 8 && c == 8 then 7
    else if r == 8 && c == 7 then 8
    else if r == 8 && c <= 5 then 14 - c
    else if r == 8 then size - 1 - c
    else if r == size - 8 then 15
    else r - (size - 15)
  }

  /** One step of the BCH division by a generator with the given top bit. */
  function BchStep(rem: nat, top: nat, generator: nat): nat {
    Xor(2 * rem, Shr(rem, top) * generator)
  }

  function Bch(rem: nat, top: nat, generator: nat, steps: nat): nat {
    if steps == 0 then rem else BchStep(Bch(rem, top, generator, steps - 1), top, generator)
  }

  /** The 15 format bits of a mask at level M. */
  function FormatBits(mask: nat): nat {
    Xor(Or(1024 * mask, Bch(mask, 9, 0x537, 10)), 0x5412)
  }

  predicate FormatDark(size: nat, mask: nat, r: int, c: int)
    requires size >= 21 && Format(size, r, c)
  {
    var i := FormatIndex(size, r, c);
    i == 15 || Shr(FormatBits(mask), i) % 2 == 1
  }

  predicate VersionInfo(v: nat, r: int, c: int) {
    v >= 7 && ((0 <= r < 6 && Size(v) - 11 <= c <= Size(v) - 9) || (0 <= c < 6 && Size(v) - 11 <= r <= Size(v) - 9))
  }

  /** The 18 version bits. */
  function VersionBits(v: nat): nat {
    Or(4096 * v, Bch(v, 11, 0x1F25, 12))
  }

  predicate VersionDark(v: nat, r: int, c: int)
    requires VersionInfo(v, r, c)
  {
    var i := if r < 6 then 3 * r + (c - (Size(v) - 11)) else 3 * c + (r - (Size(v) - 11));
    Shr(VersionBits(v), i) % 2 == 1
  }

  /** The square of a finder with its separator. */
  predicate Finder(size: nat, r: int, c: int) {
    (r <= 7 && c <= 7) || (r <= 7 && c >= size - 8) || (r >= size - 8 && c <= 7)
  }

  function FinderRing(size: nat, r: int, c: int): nat {
    if r >= size - 8 then Ring(r, c, size - 4, 3) else if c >= size - 8 then Ring(r, c, 3, size - 4) else Ring(r, c, 3, 3)
  }

  /** The function modules of a version. */
  predicate IsFunction(v: nat, r: int, c: int)
    requires 1 <= v <= MAX_VERSION
  {
    Timing(r, c) || Finder(Size(v), r, c) || InAlignment(AlignmentPairs(v), r, c) || Format(Size(v), r, c) || VersionInfo(v, r, c)
  }

  /** The colour of a function module in a symbol with the given mask. */
  predicate PatternDark(v: nat, mask: nat, r: int, c: int)
    requires 1 <= v <= MAX_VERSION
  {
    if Format(Size(v), r, c) then FormatDark(Size(v), mask, r, c)
    else if VersionInfo(v, r, c) then VersionDark(v, r, c)
    else if InAlignment(AlignmentPairs(v), r, c) then InAlignmentDark(AlignmentPairs(v), r, c)
    else if Finder(Size(v), r, c) then FinderDark(FinderRing(Size(v), r, c))
    else TimingDark(r, c)
  }

  // ---- Drawing ----

  /** The two grids of buildMatrix. */
  class Canvas {
    const size: nat
    const modules: array2<bool>
    const isFunction: array2<bool>

    ghost predicate Valid() {
      && modules.Length0 == modules.Length1 == isFunction.Length0 == isFunction.Length1 == size
      && modules != isFunction && size >= 21
    }

    predicate In(r: int, c: int) {
      0 <= r < size && 0 <= c < size
    }

    constructor (size: nat)
      requires size >= 21
      ensures Valid() && this.size == size && fresh(modules) && fresh(isFunction)
      ensures forall r, c :: In(r, c) ==> !modules[r, c] && !isFunction[r, c]
    {
      this.size := size;
      modules := new bool[size, size]((_, _) => false);
      isFunction := new bool[size, size]((_, _) => false);
    }

    method Set(row: nat, col: nat, dark: bool)
      requires Valid() && In(row, col)
      modifies modules, isFunction
      ensures modules[row, col] == dark && isFunction[row, col]
      ensures forall r, c :: In(r, c) && !(r == row && c == col) ==>
        modules[r, c] == old(modules[r, c]) && isFunction[r, c] == old(isFunction[r, c])
    {
      modules[row, col] := dark;
      isFunction[row, col] := true;
    }

    method DrawTiming()
      requires Valid()
      modifies modules, isFunction
      ensures forall r, c :: In(r, c) ==>
        modules[r, c] == (if Timing(r, c) then TimingDark(r, c) else old(modules[r, c])) &&
        isFunction[r, c] == (Timing(r, c) || old(isFunction[r, c]))
    {
      for i := 0 to size
        invariant forall r, c :: In(r, c) ==>
          if (r == 6 && c < i) || (c == 6 && r < i)
          then modules[r, c] == TimingDark(r, c) && isFunction[r, c]
          else modules[r, c] == old(modules[r, c]) && isFunction[r, c] == old(isFunction[r, c])
      {
        Set(6, i, i % 2 == 0);
        Set(i, 6, i % 2 == 0);
      }
    }

    /** Rings up to a radius around a centre, clipped to the grid. */
    method DrawRings(cr: int, cc: int, radius: nat, dark: nat -> bool)
      requires Valid()
      modifies modules, isFunction
      ensures forall r, c :: In(r, c) ==>
        modules[r, c] == (if Ring(r, c, cr, cc) <= radius then dark(Ring(r, c, cr, cc)) else old(modules[r, c])) &&
        isFunction[r, c] == (Ring(r, c, cr, cc) <= radius || old(isFunction[r, c]))
    {
      for dr: int := -(radius as int) to radius + 1
        invariant forall r, c :: In(r, c) ==>
          if Ring(r, c, cr, cc) <= radius && r - cr < dr
          then modules[r, c] == dark(Ring(r, c, cr, cc)) && isFunction[r, c]
          else modules[r, c] == old(modules[r, c]) && isFunction[r, c] == old(isFunction[r, c])
      {
        for dc: int := -(radius as int) to radius + 1
          invariant forall r, c :: In(r, c) ==>
            if Ring(r, c, cr, cc) <= radius && (r - cr < dr || (r - cr == dr && c - cc < dc))
            then modules[r, c] == dark(Ring(r, c, cr, cc)) && isFunction[r, c]
            else modules[r, c] == old(modules[r, c]) && isFunction[r, c] == old(isFunction[r, c])
        {
          if In(cr + dr, cc + dc) {
            Set(cr + dr, cc + dc, dark(Ring(cr + dr, cc + dc, cr, cc)));
          }
        }
      }
    }

    method DrawFinders()
      requires Valid()
      modifies modules, isFunction
      ensures forall r, c :: In(r, c) ==>
        modules[r, c] == (if Finder(size, r, c) then FinderDark(FinderRing(size, r, c)) else old(modules[r, c])) &&
        isFunction[r, c] == (Finder(size, r, c) || old(isFunction[r, c]))
    {
      DrawRings(3, 3, 4, FinderDark);
      DrawRings(3, size - 4, 4, FinderDark);
      DrawRings(size - 4, 3, 4, FinderDark);
    }

    method DrawAlignments(v: nat)
      requires Valid() && 1 <= v <= MAX_VERSION && size == Size(v)
      modifies modules, isFunction
      ensures forall r, c :: In(r, c) ==>
        modules[r, c] == (if InAlignment(AlignmentPairs(v), r, c) then InAlignmentDark(AlignmentPairs(v), r, c) else old(modules[r, c])) &&
        isFunction[r, c] == (InAlignment(AlignmentPairs(v), r, c) || old(isFunction[r, c]))
    {
      hide Centers;
      var centers := Centers(v);
      var n := |centers|;
      ghost var pairs: seq<(nat, nat)> := [];
      for i := 0 to n
        invariant pairs == if i == 0 then [] else PairsBefore(centers, i - 1, n)
        invariant forall r, c :: In(r, c) ==>
          modules[r, c] == (if InAlignment(pairs, r, c) then InAlignmentDark(pairs, r, c) else old(modules[r, c])) &&
          isFunction[r, c] == (InAlignment(pairs, r, c) || old(isFunction[r, c]))
      {
        for j := 0 to n
          invariant pairs == PairsBefore(centers, i, j)
          invariant forall r, c :: In(r, c) ==>
            modules[r, c] == (if InAlignment(pairs, r, c) then InAlignmentDark(pairs, r, c) else old(modules[r, c])) &&
            isFunction[r, c] == (InAlignment(pairs, r, c) || old(isFunction[r, c]))
        {
          if !OnFinder(n, i, j) {
            ghost var next := pairs + [(centers[i], centers[j])];
            assert next[..|pairs|] == pairs;
            DrawRings(centers[i], centers[j], 2, AlignmentDark);
            pairs := next;
          } else {
            assert pairs + [] == pairs;
          }
        }
      }
    }

    /** Draws both copies of the format bits and the dark module. */
    method DrawFormatBits(mask: nat)
      requires Valid() && mask < 8
      modifies modules, isFunction
      ensures forall r, c :: In(r, c) ==>
        modules[r, c] == (if Format(size, r, c) then FormatDark(size, mask, r, c) else old(modules[r, c])) &&
        isFunction[r, c] == (Format(size, r, c) || old(isFunction[r, c]))
    {
      hide FormatBits, Shr;
      var bits := ComputeFormatBits(mask);
      DrawFirstCopy(bits, mask);
      DrawSecondCopy(bits, mask);
    }

    method DrawFirstCopy(bits: nat, ghost mask: nat)
      requires Valid() && mask < 8 && bits == FormatBits(mask)
      modifies modules, isFunction
      ensures forall r, c :: In(r, c) ==>
        if (c == 8 && r <= 8 && r != 6) || (r == 8 && c <= 8 && c != 6)
        then modules[r, c] == FormatDark(size, mask, r, c) && isFunction[r, c]
        else modules[r, c] == old(modules[r, c]) && isFunction[r, c] == old(isFunction[r, c])
    {
      hide FormatBits, Shr;
      for i := 0 to 6
        invariant forall r, c :: In(r, c) ==>
          if c == 8 && r < i
          then modules[r, c] == FormatDark(size, mask, r, c) && isFunction[r, c]
          else modules[r, c] == old(modules[r, c]) && isFunction[r, c] == old(isFunction[r, c])
      {
        Set(i, 8, Shr(bits, i) % 2 == 1);
      }
      Set(7, 8, Shr(bits, 6) % 2 == 1);
      Set(8, 8, Shr(bits, 7) % 2 == 1);
      Set(8, 7, Shr(bits, 8) % 2 == 1);
      for i := 9 to 15
        invariant forall r, c :: In(r, c) ==>
          if (c == 8 && r <= 8 && r != 6) || (r == 8 && c == 7) || (r == 8 && c <= 5 && c > 14 - i)
          then modules[r, c] == FormatDark(size, mask, r, c) && isFunction[r, c]
          else modules[r, c] == old(modules[r, c]) && isFunction[r, c] == old(isFunction[r, c])
      {
        Set(8, 14 - i, Shr(bits, i) % 2 == 1);
      }
    }

    method DrawSecondCopy(bits: nat, ghost mask: nat)
      requires Valid() && mask < 8 && bits == FormatBits(mask)
      modifies modules, isFunction
      ensures forall r, c :: In(r, c) ==>
        if (r == 8 && c >= size - 8) || (c == 8 && r >= size - 8)
        then modules[r, c] == FormatDark(size, mask, r, c) && isFunction[r, c]
        else modules[r, c] == old(modules[r, c]) && isFunction[r, c] == old(isFunction[r, c])
    {
      hide FormatBits, Shr;
      for i := 0 to 8
        invariant forall r, c :: In(r, c) ==>
          if r == 8 && c > size - 1 - i
          then modules[r, c] == FormatDark(size, mask, r, c) && isFunction[r, c]
          else modules[r, c] == old(modules[r, c]) && isFunction[r, c] == old(isFunction[r, c])
      {
        Set(8, size - 1 - i, Shr(bits, i) % 2 == 1);
      }
      for i := 8 to 15
        invariant forall r, c :: In(r, c) ==>
          if (r == 8 && c >= size - 8) || (c == 8 && size - 7 <= r < size - 15 + i)
          then modules[r, c] == FormatDark(size, mask, r, c) && isFunction[r, c]
          else modules[r, c] == old(modules[r, c]) && isFunction[r, c] == old(isFunction[r, c])
      {
        Set(size - 15 + i, 8, Shr(bits, i) % 2 == 1);
      }
      Set(size - 8, 8, true);
    }

    static method ComputeFormatBits(mask: nat) returns (bits: nat)
      ensures bits == FormatBits(mask)
    {
      hide Xor, Or, Shr;
      var rem := mask;
      for i := 0 to 10
        invariant rem == Bch(mask, 9, 0x537, i)
      {
        rem := Xor(2 * rem, Shr(rem, 9) * 0x537);
      }
      bits := Xor(Or(1024 * mask, rem), 0x5412);
    }

    method DrawVersionInfo(v: nat)
      requires Valid() && size == Size(v) && v >= 7
      modifies modules, isFunction
      ensures forall r, c :: In(r, c) ==>
        modules[r, c] == (if VersionInfo(v, r, c) then VersionDark(v, r, c) else old(modules[r, c])) &&
        isFunction[r, c] == (VersionInfo(v, r, c) || old(isFunction[r, c]))
    {
      hide Xor, Or, Shr;
      var rem := v;
      for i := 0 to 12
        invariant rem == Bch(v, 11, 0x1F25, i)
      {
        rem := Xor(2 * rem, Shr(rem, 11) * 0x1F25);
      }
      var bits := Or(4096 * v, rem);
      for i := 0 to 18
        invariant forall r, c :: In(r, c) ==>
          if VersionInfo(v, r, c) && (if r < 6 then 3 * r + (c - (size - 11)) else 3 * c + (r - (size - 11))) < i
          then modules[r, c] == VersionDark(v, r, c) && isFunction[r, c]
          else modules[r, c] == old(modules[r, c]) && isFunction[r, c] == old(isFunction[r, c])
      {
        var a, b := size - 11 + i % 3, i / 3;
        Set(b, a, Shr(bits, i) % 2 == 1);
        Set(a, b, Shr(bits, i) % 2 == 1);
      }
    }

    /** Everything buildMatrix draws before the data: exactly the function modules are marked and coloured. */
    method DrawFunctionPatterns(v: nat)
      requires Valid() && 1 <= v <= MAX_VERSION && size == Size(v)
      requires forall r, c :: In(r, c) ==> !modules[r, c] && !isFunction[r, c]
      modifies modules, isFunction
      ensures forall r, c :: In(r, c) ==> isFunction[r, c] == IsFunction(v, r, c)
      ensures forall r, c :: In(r, c) ==> modules[r, c] == (IsFunction(v, r, c) && PatternDark(v, 0, r, c))
    {
      hide AlignmentPairs, InAlignment, InAlignmentDark, FormatDark, VersionDark, FormatBits, VersionBits;
      DrawTiming();
      DrawFinders();
      DrawAlignments(v);
      DrawFormatBits(0);
      if v >= 7 {
        DrawVersionInfo(v);
        VersionApart(v);
      }
    }
  }

  lemma VersionApart(v: nat)
    requires v >= 7
    ensures forall r, c :: !(VersionInfo(v, r, c) && Format(Size(v), r, c))
  {
  }
}
