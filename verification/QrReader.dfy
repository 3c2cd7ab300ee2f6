/**
  A strict reader of finished symbols that knows nothing of how they are drawn: the patterns are pictures, the
  mask conditions are those of table 10 of ISO/IEC 18004:2015 in terms of residues, and every copy of the format
  and version words must announce the symbol it is in.
 */
module QrReader {
  import opened Bits
  import opened Wrappers
  import opened QrCodewords
  import opened QrPatterns
  import opened QrPenalty
  import opened QrSymbol
  import opened BchCodes

  function ShownBit(g: Grid, cell: Cell): bit
    requires IsGrid(g, |g|) && cell.0 < |g| && cell.1 < |g|
  {
    AsBit(g[cell.0][cell.1])
  }

  // ---- Words shown by cells ----

  /** The number whose binary digit i is shown by the i-th cell. */
  function ShownNumber(g: Grid, cells: seq<Cell>): nat
    requires IsGrid(g, |g|) && Within(cells, |g|)
  {
    if cells == [] then 0
    else
      var n := |cells| - 1;
      ShownNumber(g, cells[..n]) + Pow2(n) * ShownBit(g, cells[n])
  }

  /** Cells that show the digits of a word show the word. */
  lemma {:induction false} NumberIsShown(g: Grid, cells: seq<Cell>, word: nat)
    requires IsGrid(g, |g|) && Within(cells, |g|)
    requires forall i :: 0 <= i < |cells| ==> ShownBit(g, cells[i]) == Shr(word, i) % 2
    ensures ShownNumber(g, cells) == word % Pow2(|cells|)
  {
    hide Shr, ShownBit, Pow2;
    if cells == [] {
      assert Pow2(0) == 1 by { PowerOfNone(); }
    } else {
      var n := |cells| - 1;
      NumberIsShown(g, cells[..n], word);
      ShrIsQuotient(word, n);
      NextDigit(word, n);
    }
  }

  lemma PowerOfNone()
    ensures Pow2(0) == 1
  {
  }

  lemma NextDigit(word: nat, n: nat)
    ensures word % Pow2(n + 1) == word % Pow2(n) + Pow2(n) * (word / Pow2(n) % 2)
  {
    hide Pow2;
    assert Pow2(n + 1) == 2 * Pow2(n) by { PowerNext(n); }
    RemainderDoubles(word, Pow2(n));
  }

  lemma PowerNext(n: nat)
    ensures Pow2(n + 1) == 2 * Pow2(n)
  {
  }

  lemma RemainderDoubles(word: nat, p: nat)
    requires p > 0
    ensures word % (2 * p) == word % p + p * (word / p % 2)
  {
    HalfQuotient(word, p);
    var q, t := word / p / 2, word / p % 2;
    assert word == p * (2 * q + t) + word % p;
    Regroup(p, q, t);
    DivModUnique(word, 2 * p, q, p * t + word % p);
  }

  // ---- The four words ----

  /** Format word around the top left finder, leaving out row 6 and column 6. */
  function FirstFormat(size: nat): (r: seq<Cell>)
    requires size >= 21
    ensures |r| == 15 && Within(r, size)
  {
    seq(15, i requires 0 <= i < 15 =>
      if i < 6 then (i, 8) else if i < 8 then (i + 1, 8) else if i == 8 then (8, 7) else (8, 14 - i))
  }

  /** Format word beside the other two finders. */
  function SecondFormat(size: nat): (r: seq<Cell>)
    requires size >= 21
    ensures |r| == 15 && Within(r, size)
  {
    seq(15, i requires 0 <= i < 15 => if i < 8 then (8, size - 1 - i) else (size - 15 + i, 8))
  }

  /** Version word beside the top right finder, three digits to a row. */
  function TopRightVersion(size: nat): (r: seq<Cell>)
    requires size >= 21
    ensures |r| == 18 && Within(r, size)
  {
    seq(18, i requires 0 <= i < 18 => (i / 3, size - 11 + i % 3))
  }

  /** The same word on top of the bottom left finder, three digits to a column. */
  function BottomLeftVersion(size: nat): (r: seq<Cell>)
    requires size >= 21
    ensures |r| == 18 && Within(r, size)
  {
    seq(18, i requires 0 <= i < 18 => (size - 11 + i % 3, i / 3))
  }

  /** Level and mask announced by a format word: five bits in front of the check bits, under a fixed pattern. */
  function FormatData(word: nat): nat {
    Xor(word, 0x5412) / 1024
  }

  /** The version announced by a version word: six bits in front of the check bits. */
  function VersionData(word: nat): nat {
    word / 4096
  }

  // ---- Pictures ----

  /** A pattern as it is printed: # is dark; what lies outside the symbol is not looked at. */
  predicate Depicts(g: Grid, picture: seq<string>, row: int, col: int)
    requires IsGrid(g, |g|)
  {
    forall i, j :: 0 <= i < |picture| && 0 <= j < |picture[i]| && 0 <= row + i < |g| && 0 <= col + j < |g| ==>
      g[row + i][col + j] == (picture[i][j] == '#')
  }

  /** A finder in its separator. */
  const FINDER: seq<string> := [
    ".........",
    ".#######.",
    ".#.....#.",
    ".#.###.#.",
    ".#.###.#.",
    ".#.###.#.",
    ".#.....#.",
    ".#######.",
    "........."]

  const ALIGNMENT: seq<string> := [
    "#####",
    "#...#",
    "#.#.#",
    "#...#",
    "#####"]

  /**
    Row and column of the k-th of n alignment centres: from 6 to size - 7, in even steps from the far end, the step
    being the least that covers the distance (ISO/IEC 18004:2015, annex E, for versions up to 15).
   */
  function AlignmentStep(v: nat): nat
    requires v >= 2
  {
    var gaps := v / 7 + 1;
    2 * ((4 * v + 4 + 2 * gaps - 1) / (2 * gaps))
  }

  function AlignmentCenter(v: nat, k: nat): int
    requires v >= 2 && k < v / 7 + 2
  {
    if k == 0 then 6 else Size(v) - 7 - (v / 7 + 1 - k) * AlignmentStep(v)
  }

  predicate HasFinders(g: Grid)
    requires IsGrid(g, |g|)
  {
    Depicts(g, FINDER, -1, -1) && Depicts(g, FINDER, -1, |g| - 8) && Depicts(g, FINDER, |g| - 8, -1)
  }

  /** Between the finders row 6 and column 6 alternate, and the dark module is dark. */
  predicate HasTiming(g: Grid)
    requires IsGrid(g, |g|) && |g| >= 21
  {
    && (forall k :: 8 <= k <= |g| - 9 ==> g[6][k] == (k % 2 == 0) && g[k][6] == (k % 2 == 0))
    && g[|g| - 8][8]
  }

  /** A pattern around every pair of centres but the three on finders. */
  predicate HasAlignments(v: nat, g: Grid)
    requires IsGrid(g, |g|)
  {
    v >= 2 ==>
    forall a, b :: 0 <= a < v / 7 + 2 && 0 <= b < v / 7 + 2 && !OnFinder(v / 7 + 2, a, b) ==>
      Depicts(g, ALIGNMENT, AlignmentCenter(v, a) - 2, AlignmentCenter(v, b) - 2)
  }

  /** Both version blocks announce v. */
  predicate HasVersion(v: nat, g: Grid)
    requires IsGrid(g, |g|) && |g| >= 21
  {
    v >= 7 ==>
    && VersionData(ShownNumber(g, TopRightVersion(|g|))) == v
    && VersionData(ShownNumber(g, BottomLeftVersion(|g|))) == v
  }

  /** Reads a symbol of the size of version v: None if a pattern is damaged or two copies of a word disagree. */
  function ReadVersion(v: nat, g: Grid): Option<seq<byte>>
    requires 1 <= v <= MAX_VERSION && IsGrid(g, |g|) && |g| == Size(v)
  {
    hide HasFinders, HasTiming, HasAlignments, HasVersion, FormatData, ShownNumber, FirstFormat, SecondFormat;
    var format := FormatData(ShownNumber(g, FirstFormat(|g|)));
    if !HasFinders(g) || !HasTiming(g) || !HasAlignments(v, g) || !HasVersion(v, g)
       || format >= 8 || FormatData(ShownNumber(g, SecondFormat(|g|))) != format then None
    else ReadSymbol(v, g, format)
  }

  /** Reads a symbol from its modules alone. */
  function ReadGrid(g: Grid): Option<seq<byte>>
    requires IsGrid(g, |g|)
  {
    hide ReadVersion;
    if |g| < 21 || |g| % 4 != 1 || |g| > 77 then None else ReadVersion((|g| - 17) / 4, g)
  }

  /** The patterns of the third penalty rule are a line through the middle of a finder with four light modules at one end. */
  lemma FinderLine()
    ensures |PAT_A| == |PAT_B| == 11
    ensures forall k :: 0 <= k < 11 ==> PAT_A[k] == (k < 7 && FINDER[4][k + 1] == '#') && PAT_B[k] == PAT_A[10 - k]
  {
  }

  // ---- What a finished symbol shows ----

  lemma VersionDigit(v: nat, data: Grid, m: nat, r: nat, c: nat)
    requires 7 <= v <= MAX_VERSION && IsGrid(data, Size(v)) && VersionInfo(v, r, c)
    ensures r < Size(v) && c < Size(v)
    ensures ShownBit(Candidate(v, data, m), (r, c))
      == Shr(VersionBits(v), if r < 6 then 3 * r + (c - (Size(v) - 11)) else 3 * c + (r - (Size(v) - 11))) % 2
  {
    hide VersionBits, Shr, InAlignment, AlignmentPairs, InAlignmentDark, FormatDark;
    VersionApart(v);
  }

  /** Both blocks of a finished symbol show the version word, from which the version is read. */
  lemma VersionIsRead(v: nat, data: Grid, m: nat)
    requires 1 <= v <= MAX_VERSION && IsGrid(data, Size(v))
    ensures HasVersion(v, Candidate(v, data, m))
    ensures v >= 7 ==> ShownNumber(Candidate(v, data, m), TopRightVersion(Size(v))) == VersionBits(v)
  {
    hide VersionBits, Shr, VersionInfo, IsFunction, ShownBit, ShownNumber, Candidate, TopRightVersion, BottomLeftVersion;
    if v >= 7 {
      var g, size := Candidate(v, data, m), Size(v);
      forall i | 0 <= i < 18
        ensures ShownBit(g, TopRightVersion(size)[i]) == Shr(VersionBits(v), i) % 2
        ensures ShownBit(g, BottomLeftVersion(size)[i]) == Shr(VersionBits(v), i) % 2
      {
        VersionCells(v, i);
        VersionDigit(v, data, m, i / 3, size - 11 + i % 3);
        VersionDigit(v, data, m, size - 11 + i % 3, i / 3);
      }
      NumberIsShown(g, TopRightVersion(size), VersionBits(v));
      NumberIsShown(g, BottomLeftVersion(size), VersionBits(v));
      VersionBitsRead(v);
    }
  }

  lemma VersionBitsRead(v: nat)
    requires v < 64
    ensures VersionBits(v) % Pow2(18) == VersionBits(v) && VersionData(VersionBits(v)) == v
  {
    hide VersionBits, Pow2;
    var _ := VersionWord(v);
    Pow2Of18();
  }

  lemma VersionCells(v: nat, i: nat)
    requires v >= 7 && i < 18
    ensures var a, b := Size(v) - 11 + i % 3, i / 3;
            TopRightVersion(Size(v))[i] == (b, a) && BottomLeftVersion(Size(v))[i] == (a, b)
            && VersionInfo(v, a, b) && VersionInfo(v, b, a)
  {
  }

  lemma Pow2Of18()
    ensures Pow2(15) == 0x8000 && Pow2(18) == 0x4_0000
  {
    assert Pow2(12) == 0x1000;
  }

  lemma FormatDigit(v: nat, data: Grid, m: nat, r: nat, c: nat)
    requires 1 <= v <= MAX_VERSION && IsGrid(data, Size(v)) && m < 8
    requires r < Size(v) && c < Size(v) && Format(Size(v), r, c) && FormatIndex(Size(v), r, c) < 15
    ensures ShownBit(Candidate(v, data, m), (r, c)) == Shr(FormatBits(m), FormatIndex(Size(v), r, c)) % 2
  {
    hide IsFunction, FormatBits, Shr, PatternDark, FormatIndex;
    PatternWithoutMask(v, m);
  }

  lemma FormatCells(size: nat, i: nat)
    requires size >= 21 && i < 15
    ensures forall cell | cell in [FirstFormat(size)[i], SecondFormat(size)[i]] ::
              cell.0 < size && cell.1 < size && Format(size, cell.0, cell.1) && FormatIndex(size, cell.0, cell.1) == i
  {
  }

  /** Both copies of a finished symbol show the format word, from which level M and the mask are read. */
  lemma MaskIsRead(v: nat, data: Grid, m: nat)
    requires 1 <= v <= MAX_VERSION && IsGrid(data, Size(v)) && m < 8
    ensures ShownNumber(Candidate(v, data, m), FirstFormat(Size(v))) == FormatBits(m) == ShownNumber(Candidate(v, data, m), SecondFormat(Size(v)))
    ensures FormatData(FormatBits(m)) == m
  {
    hide FormatBits, Shr, Xor, IsFunction, ShownBit, ShownNumber, Candidate, Format, FormatIndex, FirstFormat, SecondFormat;
    var g, size := Candidate(v, data, m), Size(v);
    forall i | 0 <= i < 15
      ensures ShownBit(g, FirstFormat(size)[i]) == Shr(FormatBits(m), i) % 2
      ensures ShownBit(g, SecondFormat(size)[i]) == Shr(FormatBits(m), i) % 2
    {
      FormatCells(size, i);
      FormatDigit(v, data, m, FirstFormat(size)[i].0, FirstFormat(size)[i].1);
      FormatDigit(v, data, m, SecondFormat(size)[i].0, SecondFormat(size)[i].1);
    }
    NumberIsShown(g, FirstFormat(size), FormatBits(m));
    NumberIsShown(g, SecondFormat(size), FormatBits(m));
    var _ := FormatWord(m);
    Pow2Of18();
  }

  /** The reader gets the bytes back from every finished symbol that carries their codewords, whatever its mask. */
  lemma GridReads(v: nat, data: Grid, m: nat, bytes: seq<byte>)
    requires 1 <= v <= MAX_VERSION && IsGrid(data, Size(v)) && m < 8 && |bytes| <= ByteCapacity(v)
    requires Within(FreeCells(v), Size(v)) && Carries(v, data, Codewords(DataBlock(bytes, v), v))
    ensures ReadGrid(Candidate(v, data, m)) == Some(bytes)
  {
    hide IsFunction, FreeFrom, Codewords, DataBlock, Candidate, ReadSymbol, ByteCapacity, Info, DataCodewords, Carries, ReadVersion;
    SymbolReads(v, data, m, bytes);
    VersionReads(v, data, m);
  }

  /** Nothing but the data decides whether a finished symbol is read. */
  lemma VersionReads(v: nat, data: Grid, m: nat)
    requires 1 <= v <= MAX_VERSION && IsGrid(data, Size(v)) && m < 8
    ensures ReadVersion(v, Candidate(v, data, m)) == ReadSymbol(v, Candidate(v, data, m), m)
  {
    hide Candidate, HasFinders, HasTiming, HasAlignments, HasVersion, ReadSymbol, FormatData, FormatBits, ShownNumber, FirstFormat, SecondFormat;
    FindersShown(v, data, m);
    TimingShown(v, data, m);
    AlignmentsShown(v, data, m);
    VersionIsRead(v, data, m);
    MaskIsRead(v, data, m);
  }

  // ---- Where the alignment patterns are ----

  lemma StepValues(v: nat)
    requires 2 <= v <= MAX_VERSION
    ensures AlignmentStep(v) == if v <= 6 then 4 * v + 4 else if v <= 13 then 2 * v + 2 else if v == 14 then 20 else 22
  {
  }

  /** The tabulated centres are evenly spaced. */
  lemma CentersSpaced(v: nat)
    requires 1 <= v <= MAX_VERSION
    ensures |Centers(v)| == if v == 1 then 0 else v / 7 + 2
    ensures forall k :: 0 <= k < |Centers(v)| ==> Centers(v)[k] == AlignmentCenter(v, k)
  {
    hide AlignmentStep;
    if v >= 2 {
      StepValues(v);
    }
  }

  /** Centres are far apart, and all but the first and the last are far from the finders. */
  lemma {:induction false} CentersApart(v: nat, a: nat)
    requires 1 <= v <= MAX_VERSION && a < |Centers(v)|
    ensures Centers(v)[a] % 2 == 0 && 6 <= Centers(v)[a] <= Size(v) - 7
    ensures a > 0 ==> Centers(v)[a - 1] + 12 <= Centers(v)[a] && Centers(v)[a] >= 18
    ensures a < |Centers(v)| - 1 ==> Centers(v)[a] <= Size(v) - 19
  {
  }

  lemma {:induction false} CentersAscend(v: nat, a: nat, b: nat)
    requires 1 <= v <= MAX_VERSION && a < b < |Centers(v)|
    ensures Centers(v)[a] + 12 <= Centers(v)[b]
    decreases b
  {
    hide Centers;
    CentersApart(v, b);
    if a < b - 1 {
      CentersAscend(v, a, b - 1);
    }
  }

  /** The patterns drawn stand at the pairs of centres that are on no finder. */
  lemma {:induction false} PairFound(centers: seq<nat>, i: nat, j: nat, k: nat) returns (a: nat, b: nat)
    requires i < |centers| && j <= |centers| && k < |PairsBefore(centers, i, j)|
    ensures a < |centers| && b < |centers| && !OnFinder(|centers|, a, b)
    ensures PairsBefore(centers, i, j)[k] == (centers[a], centers[b])
    decreases i, j
  {
    if j == 0 {
      a, b := PairFound(centers, i - 1, |centers|, k);
    } else if k < |PairsBefore(centers, i, j - 1)| {
      a, b := PairFound(centers, i, j - 1, k);
    } else {
      a, b := i, j - 1;
    }
  }

  lemma {:induction false} PairDrawn(centers: seq<nat>, i: nat, j: nat, a: nat, b: nat) returns (k: nat)
    requires i < |centers| && j <= |centers| && b < |centers| && !OnFinder(|centers|, a, b)
    requires a < i || (a == i && b < j)
    ensures k < |PairsBefore(centers, i, j)| && PairsBefore(centers, i, j)[k] == (centers[a], centers[b])
    decreases i, j
  {
    if j == 0 {
      k := PairDrawn(centers, i - 1, |centers|, a, b);
    } else if a == i && b == j - 1 {
      k := |PairsBefore(centers, i, j - 1)|;
    } else {
      k := PairDrawn(centers, i, j - 1, a, b);
    }
  }

  /** A cell of a pattern has the colour of some pattern it lies in. */
  lemma {:induction false} SomePattern(pairs: seq<(nat, nat)>, r: int, c: int) returns (k: nat)
    requires InAlignment(pairs, r, c)
    ensures k < |pairs| && Ring(r, c, pairs[k].0, pairs[k].1) <= 2
    ensures InAlignmentDark(pairs, r, c) == AlignmentDark(Ring(r, c, pairs[k].0, pairs[k].1))
    decreases |pairs|
  {
    k := |pairs| - 1;
    if Ring(r, c, pairs[k].0, pairs[k].1) > 2 {
      k := SomePattern(pairs[..k], r, c);
    }
  }

  lemma {:induction false} InPattern(pairs: seq<(nat, nat)>, k: nat, r: int, c: int)
    requires k < |pairs| && Ring(r, c, pairs[k].0, pairs[k].1) <= 2
    ensures InAlignment(pairs, r, c)
    decreases |pairs|
  {
    if k < |pairs| - 1 {
      InPattern(pairs[..|pairs| - 1], k, r, c);
    }
  }

  lemma PatternAt(v: nat, r: int, c: int) returns (a: nat, b: nat)
    requires 1 <= v <= MAX_VERSION && InAlignment(AlignmentPairs(v), r, c)
    ensures var centers := Centers(v);
            a < |centers| && b < |centers| && !OnFinder(|centers|, a, b) && Ring(r, c, centers[a], centers[b]) <= 2
            && InAlignmentDark(AlignmentPairs(v), r, c) == AlignmentDark(Ring(r, c, centers[a], centers[b]))
  {
    hide Centers, PairsBefore, AlignmentDark, InAlignmentDark, Ring, OnFinder;
    var centers := Centers(v);
    var k := SomePattern(AlignmentPairs(v), r, c);
    a, b := PairFound(centers, |centers| - 1, |centers|, k);
  }

  lemma PatternThere(v: nat, a: nat, b: nat, r: int, c: int)
    requires 1 <= v <= MAX_VERSION && a < |Centers(v)| && b < |Centers(v)| && !OnFinder(|Centers(v)|, a, b)
    requires Ring(r, c, Centers(v)[a], Centers(v)[b]) <= 2
    ensures InAlignment(AlignmentPairs(v), r, c)
  {
    hide Centers, PairsBefore, Ring, InAlignment, OnFinder;
    var centers := Centers(v);
    var k := PairDrawn(centers, |centers| - 1, |centers|, a, b);
    InPattern(AlignmentPairs(v), k, r, c);
  }

  /** Patterns keep clear of finders, format and version cells. */
  lemma PatternsApart(v: nat, r: int, c: int)
    requires 1 <= v <= MAX_VERSION && InAlignment(AlignmentPairs(v), r, c)
    ensures !Finder(Size(v), r, c) && !Format(Size(v), r, c) && !VersionInfo(v, r, c)
    ensures Timing(r, c) ==> InAlignmentDark(AlignmentPairs(v), r, c) == TimingDark(r, c)
  {
    hide Centers, AlignmentPairs, InAlignment, InAlignmentDark;
    var a, b := PatternAt(v, r, c);
    CentersApart(v, a);
    CentersApart(v, b);
    FirstCenter(v);
  }

  lemma FirstCenter(v: nat)
    requires 1 <= v <= MAX_VERSION && |Centers(v)| > 0
    ensures Centers(v)[0] == 6
  {
  }

  /** A cell of the pattern around (a, b) has the colour of that pattern. */
  lemma PatternColour(v: nat, a: nat, b: nat, r: int, c: int)
    requires 1 <= v <= MAX_VERSION && a < |Centers(v)| && b < |Centers(v)| && !OnFinder(|Centers(v)|, a, b)
    requires Ring(r, c, Centers(v)[a], Centers(v)[b]) <= 2
    ensures InAlignment(AlignmentPairs(v), r, c)
    ensures InAlignmentDark(AlignmentPairs(v), r, c) == AlignmentDark(Ring(r, c, Centers(v)[a], Centers(v)[b]))
  {
    hide Centers, AlignmentPairs, InAlignment, InAlignmentDark, AlignmentDark, OnFinder;
    PatternThere(v, a, b, r, c);
    var a', b' := PatternAt(v, r, c);
    if a < a' { CentersAscend(v, a, a'); } else if a' < a { CentersAscend(v, a', a); }
    if b < b' { CentersAscend(v, b, b'); } else if b' < b { CentersAscend(v, b', b); }
  }

  // ---- The patterns of a finished symbol ----

  /** The picture of the finder shows its rings. */
  lemma FinderPicture(i: nat, j: nat)
    requires i < 9 && j < 9
    ensures |FINDER| == 9 && |FINDER[i]| == 9
    ensures FINDER[i][j] == '#' <==> FinderDark(Ring(i, j, 4, 4))
  {
  }

  lemma AlignmentPicture(i: nat, j: nat)
    requires i < 5 && j < 5
    ensures |ALIGNMENT| == 5 && |ALIGNMENT[i]| == 5
    ensures ALIGNMENT[i][j] == '#' <==> AlignmentDark(Ring(i, j, 2, 2))
  {
  }

  lemma FinderColour(v: nat, data: Grid, m: nat, r: nat, c: nat)
    requires 1 <= v <= MAX_VERSION && IsGrid(data, Size(v)) && r < Size(v) && c < Size(v) && Finder(Size(v), r, c)
    ensures Candidate(v, data, m)[r][c] == FinderDark(FinderRing(Size(v), r, c))
  {
    hide AlignmentPairs, InAlignment, InAlignmentDark, FormatDark, VersionDark, FinderDark, FinderRing;
    if InAlignment(AlignmentPairs(v), r, c) {
      PatternsApart(v, r, c);
    }
  }

  lemma FindersShown(v: nat, data: Grid, m: nat)
    requires 1 <= v <= MAX_VERSION && IsGrid(data, Size(v)) && m < 8
    ensures HasFinders(Candidate(v, data, m))
  {
    FinderShown(v, data, m, 3, 3);
    FinderShown(v, data, m, 3, Size(v) - 4);
    FinderShown(v, data, m, Size(v) - 4, 3);
  }

  lemma FinderShown(v: nat, data: Grid, m: nat, row: nat, col: nat)
    requires 1 <= v <= MAX_VERSION && IsGrid(data, Size(v))
    requires (row, col) in [(3, 3), (3, Size(v) - 4), (Size(v) - 4, 3)]
    ensures Depicts(Candidate(v, data, m), FINDER, row - 4, col - 4)
  {
    hide Candidate, FinderDark, FINDER;
    var g := Candidate(v, data, m);
    FinderPicture(0, 0);
    forall i, j | 0 <= i < |FINDER| && 0 <= j < |FINDER[i]| && 0 <= row - 4 + i < |g| && 0 <= col - 4 + j < |g|
      ensures g[row - 4 + i][col - 4 + j] == (FINDER[i][j] == '#')
    {
      FinderPicture(i, 0);
      FinderPicture(i, j);
      FinderColour(v, data, m, row - 4 + i, col - 4 + j);
      assert FinderRing(Size(v), row - 4 + i, col - 4 + j) == Ring(i, j, 4, 4);
    }
  }

  lemma TimingColour(v: nat, data: Grid, m: nat, r: nat, c: nat)
    requires 1 <= v <= MAX_VERSION && IsGrid(data, Size(v)) && r < Size(v) && c < Size(v)
    requires Timing(r, c) && !Finder(Size(v), r, c)
    ensures Candidate(v, data, m)[r][c] == TimingDark(r, c)
  {
    hide AlignmentPairs, InAlignment, InAlignmentDark, FormatDark, VersionDark, TimingDark;
    if InAlignment(AlignmentPairs(v), r, c) {
      PatternsApart(v, r, c);
    }
  }

  lemma TimingShown(v: nat, data: Grid, m: nat)
    requires 1 <= v <= MAX_VERSION && IsGrid(data, Size(v)) && m < 8
    ensures HasTiming(Candidate(v, data, m))
  {
    hide Candidate, FormatBits;
    var g := Candidate(v, data, m);
    forall k | 8 <= k <= |g| - 9 ensures g[6][k] == (k % 2 == 0) && g[k][6] == (k % 2 == 0) {
      TimingColour(v, data, m, 6, k);
      TimingColour(v, data, m, k, 6);
    }
    DarkModule(v, data, m);
  }

  lemma DarkModule(v: nat, data: Grid, m: nat)
    requires 1 <= v <= MAX_VERSION && IsGrid(data, Size(v))
    ensures Candidate(v, data, m)[Size(v) - 8][8]
  {
    hide AlignmentPairs, InAlignment, InAlignmentDark, FormatBits;
  }

  lemma AlignmentShown(v: nat, data: Grid, m: nat, a: nat, b: nat)
    requires 2 <= v <= MAX_VERSION && IsGrid(data, Size(v))
    requires a < |Centers(v)| && b < |Centers(v)| && !OnFinder(|Centers(v)|, a, b)
    ensures Depicts(Candidate(v, data, m), ALIGNMENT, Centers(v)[a] - 2, Centers(v)[b] - 2)
  {
    hide Candidate, Centers, AlignmentDark, ALIGNMENT, OnFinder;
    var g, row, col := Candidate(v, data, m), Centers(v)[a], Centers(v)[b];
    AlignmentPicture(0, 0);
    forall i, j | 0 <= i < |ALIGNMENT| && 0 <= j < |ALIGNMENT[i]| && 0 <= row - 2 + i < |g| && 0 <= col - 2 + j < |g|
      ensures g[row - 2 + i][col - 2 + j] == (ALIGNMENT[i][j] == '#')
    {
      AlignmentPicture(i, 0);
      AlignmentPicture(i, j);
      assert Ring(row - 2 + i, col - 2 + j, row, col) == Ring(i, j, 2, 2) <= 2;
      PatternColour(v, a, b, row - 2 + i, col - 2 + j);
      AlignmentColour(v, data, m, row - 2 + i, col - 2 + j);
    }
  }

  lemma AlignmentColour(v: nat, data: Grid, m: nat, r: nat, c: nat)
    requires 1 <= v <= MAX_VERSION && IsGrid(data, Size(v)) && r < Size(v) && c < Size(v)
    requires InAlignment(AlignmentPairs(v), r, c)
    ensures Candidate(v, data, m)[r][c] == InAlignmentDark(AlignmentPairs(v), r, c)
  {
    hide AlignmentPairs, InAlignment, InAlignmentDark, FormatDark, VersionDark, Format, VersionInfo;
    PatternsApart(v, r, c);
  }

  lemma AlignmentsShown(v: nat, data: Grid, m: nat)
    requires 1 <= v <= MAX_VERSION && IsGrid(data, Size(v)) && m < 8
    ensures HasAlignments(v, Candidate(v, data, m))
  {
    hide Candidate, Centers, Depicts, OnFinder, AlignmentCenter;
    CentersSpaced(v);
    if v >= 2 {
      forall a, b | 0 <= a < v / 7 + 2 && 0 <= b < v / 7 + 2 && !OnFinder(v / 7 + 2, a, b)
        ensures Depicts(Candidate(v, data, m), ALIGNMENT, AlignmentCenter(v, a) - 2, AlignmentCenter(v, b) - 2)
      {
        AlignmentShown(v, data, m, a, b);
      }
    }
  }
}
