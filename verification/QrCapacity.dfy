/**
  The version tables of web/qr.js leave room for the codewords: the function modules of every
  version are covered by rectangles whose total area leaves at least eight data modules per
  codeword.
 */
module QrCapacity {
  import opened QrCodewords
  import opened QrPatterns
  import opened QrSymbol

  datatype Rect = Rect(row: nat, col: nat, height: nat, width: nat)

  predicate Inside(rect: Rect, cell: Cell) {
    rect.row <= cell.0 < rect.row + rect.height && rect.col <= cell.1 < rect.col + rect.width
  }

  ghost function RowCells(row: nat, col: nat, width: nat): set<Cell> {
    if width == 0 then {} else RowCells(row, col, width - 1) + {(row, col + width - 1)}
  }

  ghost function Cells(rect: Rect): set<Cell>
    decreases rect.height
  {
    if rect.height == 0 then {}
    else Cells(rect.(height := rect.height - 1)) + RowCells(rect.row + rect.height - 1, rect.col, rect.width)
  }

  lemma {:induction false} RowCellsExact(row: nat, col: nat, width: nat)
    ensures |RowCells(row, col, width)| == width
    ensures forall cell :: cell in RowCells(row, col, width) <==> cell.0 == row && col <= cell.1 < col + width
  {
    if width > 0 {
      RowCellsExact(row, col, width - 1);
    }
  }

  lemma {:induction false} CellsInside(rect: Rect)
    ensures forall cell :: cell in Cells(rect) <==> Inside(rect, cell)
    decreases rect.height
  {
    if rect.height > 0 {
      CellsInside(rect.(height := rect.height - 1));
      RowCellsExact(rect.row + rect.height - 1, rect.col, rect.width);
    }
  }

  lemma CellsUnfold(rect: Rect)
    ensures rect.height == 0 ==> Cells(rect) == {}
    ensures rect.height > 0 ==>
      Cells(rect) == Cells(rect.(height := rect.height - 1)) + RowCells(rect.row + rect.height - 1, rect.col, rect.width)
  {
  }

  /** The cells above row are not in it. */
  lemma InsideAbove(rect: Rect)
    ensures forall cell: Cell :: Inside(rect, cell) ==> cell.0 < rect.row + rect.height
  {
  }

  /** A rectangle has height times width cells. */
  lemma {:induction false} CellsExact(rect: Rect)
    ensures |Cells(rect)| == rect.height * rect.width
    ensures forall cell :: cell in Cells(rect) <==> Inside(rect, cell)
    decreases rect.height
  {
    hide RowCells, Inside, Cells;
    CellsInside(rect);
    CellsUnfold(rect);
    if rect.height > 0 {
      var top, last := rect.(height := rect.height - 1), RowCells(rect.row + rect.height - 1, rect.col, rect.width);
      CellsExact(top);
      RowCellsExact(rect.row + rect.height - 1, rect.col, rect.width);
      InsideAbove(top);
      Disjoint(Cells(top), last, rect.row + rect.height - 1);
      OneMoreRow(rect.height - 1, rect.width);
    }
  }

  lemma Disjoint(a: set<Cell>, b: set<Cell>, row: nat)
    requires forall cell :: cell in a ==> cell.0 < row
    requires forall cell :: cell in b ==> cell.0 == row
    ensures |a + b| == |a| + |b|
  {
    assert a !! b;
  }

  lemma OneMoreRow(h: nat, w: nat)
    ensures h * w + w == (h + 1) * w
  {
  }

  ghost function Union(rects: seq<Rect>): set<Cell> {
    if |rects| == 0 then {} else Cells(rects[0]) + Union(rects[1..])
  }

  function Area(rects: seq<Rect>): nat {
    if |rects| == 0 then 0 else rects[0].height * rects[0].width + Area(rects[1..])
  }

  lemma AreaUpToThree(a: Rect, b: Rect, c: Rect)
    ensures Area([a]) == a.height * a.width
    ensures Area([a, b]) == a.height * a.width + b.height * b.width
    ensures Area([a, b, c]) == a.height * a.width + b.height * b.width + c.height * c.width
  {
    assert [a, b][1..] == [b] && [a, b, c][1..] == [b, c] && [b, c][1..] == [c];
    assert [b][1..] == [] && [c][1..] == [];
    assert Area([b]) == b.height * b.width + Area([]);
    assert Area([c]) == c.height * c.width + Area([]);
    assert Area([b, c]) == b.height * b.width + Area([c]);
  }

  predicate Covered(rects: seq<Rect>, cell: Cell) {
    |rects| > 0 && (Inside(rects[0], cell) || Covered(rects[1..], cell))
  }

  lemma {:induction false} UnionBounded(rects: seq<Rect>)
    ensures |Union(rects)| <= Area(rects)
    ensures forall cell :: cell in Union(rects) <==> Covered(rects, cell)
  {
    if |rects| > 0 {
      CellsExact(rects[0]);
      UnionBounded(rects[1..]);
    }
  }

  lemma {:induction false} AreaConcat(a: seq<Rect>, b: seq<Rect>)
    ensures Area(a + b) == Area(a) + Area(b)
    ensures forall cell :: Covered(a + b, cell) <==> Covered(a, cell) || Covered(b, cell)
  {
    if |a| == 0 {
      assert a + b == b;
    } else {
      AreaConcat(a[1..], b);
      assert (a + b)[1..] == a[1..] + b;
    }
  }

  // ---- Covering the function modules ----

  function FinderRects(size: nat): seq<Rect>
    requires size >= 21
  {
    [Rect(0, 0, 8, 8), Rect(0, size - 8, 8, 8), Rect(size - 8, 0, 8, 8)]
  }

  function TimingRects(size: nat): seq<Rect>
    requires size >= 21
  {
    [Rect(6, 8, 1, size - 16), Rect(8, 6, size - 16, 1)]
  }

  function FirstFormatRects(): seq<Rect> {
    [Rect(0, 8, 6, 1), Rect(7, 8, 2, 1), Rect(8, 0, 1, 6)]
  }

  function SecondFormatRects(size: nat): seq<Rect>
    requires size >= 21
  {
    [Rect(8, 7, 1, 1), Rect(8, size - 8, 1, 8), Rect(size - 8, 8, 8, 1)]
  }

  function FixedRects(size: nat): seq<Rect>
    requires size >= 21
  {
    FinderRects(size) + TimingRects(size) + FirstFormatRects() + SecondFormatRects(size)
  }

  function VersionRects(size: nat): seq<Rect>
    requires size >= 21
  {
    [Rect(0, size - 11, 6, 3), Rect(size - 11, 0, 3, 6)]
  }

  /** An alignment pattern on a timing line shares five modules with it. */
  function PairRects(pair: (nat, nat)): seq<Rect>
    requires pair.0 >= 6 && pair.1 >= 6
  {
    if pair.0 == 6 then [Rect(4, pair.1 - 2, 2, 5), Rect(7, pair.1 - 2, 2, 5)]
    else if pair.1 == 6 then [Rect(pair.0 - 2, 4, 5, 2), Rect(pair.0 - 2, 7, 5, 2)]
    else [Rect(pair.0 - 2, pair.1 - 2, 5, 5)]
  }

  predicate FarPairs(pairs: seq<(nat, nat)>) {
    forall k :: 0 <= k < |pairs| ==> pairs[k].0 >= 6 && pairs[k].1 >= 6
  }

  function AlignmentRects(pairs: seq<(nat, nat)>): seq<Rect>
    requires FarPairs(pairs)
  {
    if |pairs| == 0 then [] else AlignmentRects(pairs[..|pairs| - 1]) + PairRects(pairs[|pairs| - 1])
  }

  lemma {:induction false} CoverFixed(size: nat, cell: Cell)
    requires size >= 21 && cell.0 < size && cell.1 < size
    requires Timing(cell.0, cell.1) || Finder(size, cell.0, cell.1) || Format(size, cell.0, cell.1)
    ensures Covered(FixedRects(size), cell)
  {
    var rects := FixedRects(size);
    var k := if cell.0 <= 7 && cell.1 <= 7 then 0 else if cell.0 <= 7 && cell.1 >= size - 8 then 1
      else if cell.0 >= size - 8 && cell.1 <= 7 then 2 else if cell.0 == 6 && 8 <= cell.1 < size - 8 then 3
      else if cell.1 == 6 && 8 <= cell.0 < size - 8 then 4
      else if cell.1 == 8 && cell.0 <= 5 then 5 else if cell.1 == 8 && cell.0 <= 8 then 6
      else if cell.0 == 8 && cell.1 <= 5 then 7 else if cell.0 == 8 && cell.1 == 7 then 8
      else if cell.0 == 8 then 9 else 10;
    assert Inside(rects[k], cell);
    CoveredBy(rects, cell, k);
  }

  lemma {:induction false} CoveredBy(rects: seq<Rect>, cell: Cell, k: nat)
    requires k < |rects| && Inside(rects[k], cell)
    ensures Covered(rects, cell)
  {
    if k > 0 {
      CoveredBy(rects[1..], cell, k - 1);
    }
  }

  lemma {:induction false} CoverAlignment(pairs: seq<(nat, nat)>, cell: Cell)
    requires FarPairs(pairs) && InAlignment(pairs, cell.0, cell.1) && !Timing(cell.0, cell.1)
    ensures Covered(AlignmentRects(pairs), cell)
  {
    var n := |pairs| - 1;
    var last := pairs[n];
    AreaConcat(AlignmentRects(pairs[..n]), PairRects(last));
    if Ring(cell.0, cell.1, last.0, last.1) <= 2 {
      var rects := PairRects(last);
      CoveredBy(rects, cell, if (last.0 == 6 && cell.0 > 6) || (last.0 != 6 && last.1 == 6 && cell.1 > 6) then 1 else 0);
    } else {
      CoverAlignment(pairs[..n], cell);
    }
  }

  function Rects(v: nat): seq<Rect>
    requires 1 <= v <= MAX_VERSION && FarPairs(AlignmentPairs(v))
  {
    FixedRects(Size(v)) + (if v >= 7 then VersionRects(Size(v)) else []) + AlignmentRects(AlignmentPairs(v))
  }

  lemma {:induction false} CoverAll(v: nat, cell: Cell)
    requires 1 <= v <= MAX_VERSION && FarPairs(AlignmentPairs(v)) && cell.0 < Size(v) && cell.1 < Size(v)
    requires IsFunction(v, cell.0, cell.1)
    ensures Covered(Rects(v), cell)
  {
    hide AlignmentPairs, AlignmentRects, FixedRects, VersionRects;
    var size := Size(v);
    var version := if v >= 7 then VersionRects(size) else [];
    AreaConcat(FixedRects(size) + version, AlignmentRects(AlignmentPairs(v)));
    AreaConcat(FixedRects(size), version);
    if Timing(cell.0, cell.1) || Finder(size, cell.0, cell.1) || Format(size, cell.0, cell.1) {
      CoverFixed(size, cell);
    } else if VersionInfo(v, cell.0, cell.1) {
      CoverVersion(v, cell);
    } else {
      CoverAlignment(AlignmentPairs(v), cell);
    }
  }

  lemma {:induction false} CoverVersion(v: nat, cell: Cell)
    requires VersionInfo(v, cell.0, cell.1)
    ensures Covered(VersionRects(Size(v)), cell)
  {
    CoveredBy(VersionRects(Size(v)), cell, if cell.0 < 6 then 0 else 1);
  }

  // ---- Counting ----

  /** The area of the first j patterns in row i of an n by n arrangement. */
  function RowArea(n: nat, i: nat, j: nat): nat
    requires i < n && j <= n
  {
    if j == 0 then 0
    else RowArea(n, i, j - 1) + (if OnFinder(n, i, j - 1) then 0 else if i == 0 || j == 1 then 20 else 25)
  }

  function AreaBefore(n: nat, i: nat, j: nat): nat
    requires i < n && j <= n
  {
    (if i == 0 then 0 else AreaBefore(n, i - 1, n)) + RowArea(n, i, j)
  }

  /** Coordinate 6 comes first and only once. */
  predicate GoodCenters(centers: seq<nat>) {
    |centers| > 0 ==> centers[0] == 6 && forall k :: 1 <= k < |centers| ==> centers[k] > 6
  }

  lemma {:induction false} PairsFar(centers: seq<nat>, i: nat, j: nat)
    requires GoodCenters(centers) && i < |centers| && j <= |centers|
    ensures FarPairs(PairsBefore(centers, i, j))
    decreases i, j
  {
    if j > 0 {
      PairsFar(centers, i, j - 1);
    } else if i > 0 {
      PairsFar(centers, i - 1, |centers|);
    }
  }

  lemma {:induction false} AlignmentArea(centers: seq<nat>, i: nat, j: nat)
    requires GoodCenters(centers) && i < |centers| && j <= |centers|
    requires FarPairs(PairsBefore(centers, i, j))
    ensures Area(AlignmentRects(PairsBefore(centers, i, j))) == AreaBefore(|centers|, i, j)
    decreases i, j
  {
    hide Area, PairRects;
    var n := |centers|;
    if j == 0 {
      if i > 0 {
        PairsFar(centers, i - 1, n);
        AlignmentArea(centers, i - 1, n);
      } else {
        AreaNone();
      }
    } else {
      PairsFar(centers, i, j - 1);
      AlignmentArea(centers, i, j - 1);
      var pairs := PairsBefore(centers, i, j - 1);
      if OnFinder(n, i, j - 1) {
        assert PairsBefore(centers, i, j) == pairs;
      } else {
        var pair := (centers[i], centers[j - 1]);
        assert (pairs + [pair])[..|pairs|] == pairs;
        AreaConcat(AlignmentRects(pairs), PairRects(pair));
        PairArea(pair);
      }
    }
  }

  lemma AreaNone()
    ensures Area([]) == 0
  {
  }

  lemma PairArea(pair: (nat, nat))
    requires pair.0 >= 6 && pair.1 >= 6
    ensures Area(PairRects(pair)) == if pair.0 == 6 || pair.1 == 6 then 20 else 25
  {
    var rects := PairRects(pair);
    AreaUpToThree(rects[0], rects[|rects| - 1], rects[0]);
  }

  lemma FixedArea(size: nat)
    requires size >= 21
    ensures Area(FixedRects(size)) == 223 + 2 * (size - 16)
    ensures Area(VersionRects(size)) == 36
  {
    var f, t, a, b := FinderRects(size), TimingRects(size), FirstFormatRects(), SecondFormatRects(size);
    AreaConcat(f + t + a, b);
    AreaConcat(f + t, a);
    AreaConcat(f, t);
    AreaUpToThree(f[0], f[1], f[2]);
    AreaUpToThree(t[0], t[1], t[1]);
    AreaUpToThree(a[0], a[1], a[2]);
    AreaUpToThree(b[0], b[1], b[2]);
    AreaUpToThree(VersionRects(size)[0], VersionRects(size)[1], VersionRects(size)[1]);
  }

  lemma CentersGood(v: nat)
    requires 1 <= v <= MAX_VERSION
    ensures GoodCenters(Centers(v))
    ensures |Centers(v)| == (if v == 1 then 0 else if v <= 6 then 2 else if v <= 13 then 3 else 4)
  {
  }

  lemma AlignmentTotals()
    ensures AreaBefore(2, 1, 2) == 25 && AreaBefore(3, 2, 3) == 140 && AreaBefore(4, 3, 4) == 305
  {
    assert RowArea(3, 0, 3) == 20 && RowArea(3, 1, 3) == 70 && RowArea(3, 2, 3) == 50;
    assert RowArea(4, 0, 4) == 40 && RowArea(4, 1, 4) == 95 && RowArea(4, 2, 4) == 95 && RowArea(4, 3, 4) == 75;
  }

  /** The total area covered by the function modules of a version. */
  lemma RectsArea(v: nat)
    requires 1 <= v <= MAX_VERSION
    ensures FarPairs(AlignmentPairs(v))
    ensures Area(Rects(v)) == 223 + 2 * (Size(v) - 16) + (if v >= 7 then 36 else 0)
      + (if v == 1 then 0 else if v <= 6 then 25 else if v <= 13 then 140 else 305)
  {
    hide Centers, FixedRects, VersionRects, PairsBefore, AlignmentRects, AreaBefore, RowArea;
    var centers, size := Centers(v), Size(v);
    var version := if v >= 7 then VersionRects(size) else [];
    CentersGood(v);
    AreaNone();
    if |centers| > 0 {
      PairsFar(centers, |centers| - 1, |centers|);
      AlignmentArea(centers, |centers| - 1, |centers|);
    } else {
      NoAlignment();
    }
    AlignmentTotals();
    FixedArea(size);
    AreaConcat(FixedRects(size) + version, AlignmentRects(AlignmentPairs(v)));
    AreaConcat(FixedRects(size), version);
  }

  lemma NoAlignment()
    ensures AlignmentRects([]) == []
  {
  }

  lemma Subadditive(grid: set<Cell>, free: set<Cell>, cover: set<Cell>)
    requires forall cell :: cell in grid ==> cell in free || cell in cover
    ensures |grid| <= |free| + |cover|
  {
    var both := free + cover;
    assert grid <= both;
    SubsetSize(grid, both);
    assert both == free + (cover - free);
    SubsetSize(cover - free, cover);
  }

  lemma {:induction false} SubsetSize<T>(a: set<T>, b: set<T>)
    requires a <= b
    ensures |a| <= |b|
    decreases a
  {
    if a != {} {
      var x :| x in a;
      SubsetSize(a - {x}, b - {x});
    }
  }

  ghost function Elements(cells: seq<Cell>): set<Cell> {
    set cell | cell in cells
  }

  lemma {:induction false} ElementsBounded(cells: seq<Cell>)
    ensures |Elements(cells)| <= |cells|
  {
    if |cells| > 0 {
      ElementsBounded(cells[1..]);
      assert Elements(cells) == {cells[0]} + Elements(cells[1..]);
      SubsetSize(Elements(cells) - {cells[0]}, Elements(cells[1..]));
    }
  }

  /** All 15 version tables leave room for their codewords. */
  lemma EnoughModules(v: nat)
    requires 1 <= v <= MAX_VERSION
    ensures |FreeCells(v)| >= 8 * Info(v).total
  {
    hide IsFunction, FreeFrom, Cells, Rects, AlignmentPairs, Union, Area, Covered, Info;
    var grid := Rect(0, 0, Size(v), Size(v));
    RectsArea(v);
    CellsExact(grid);
    UnionBounded(Rects(v));
    FreeCellsExact(v);
    forall cell | cell in Cells(grid) ensures cell in Elements(FreeCells(v)) || cell in Union(Rects(v)) {
      if cell in Union(Rects(v)) {
      } else {
        if IsFunction(v, cell.0, cell.1) {
          CoverAll(v, cell);
        }
        ColumnSix(v, cell);
        assert DataModule(v, cell);
      }
    }
    Subadditive(Cells(grid), Elements(FreeCells(v)), Union(Rects(v)));
    ElementsBounded(FreeCells(v));
    RoomInTables(v);
  }

  lemma ColumnSix(v: nat, cell: Cell)
    requires 1 <= v <= MAX_VERSION && !IsFunction(v, cell.0, cell.1)
    ensures cell.1 != 6
  {
    hide InAlignment, AlignmentPairs;
  }

  lemma RoomInTables(v: nat)
    requires 1 <= v <= MAX_VERSION
    ensures Size(v) * Size(v) - 223 - 2 * (Size(v) - 16) - (if v >= 7 then 36 else 0)
      - (if v == 1 then 0 else if v <= 6 then 25 else if v <= 13 then 140 else 305) >= 8 * Info(v).total
  {
    var s := Size(v);
    if v == 1 { assert s == 21; } else if v == 2 { assert s == 25; } else if v == 3 { assert s == 29; }
    else if v == 4 { assert s == 33; } else if v == 5 { assert s == 37; } else if v == 6 { assert s == 41; }
    else if v == 7 { assert s == 45; } else if v == 8 { assert s == 49; } else if v == 9 { assert s == 53; }
    else if v == 10 { assert s == 57; } else if v == 11 { assert s == 61; } else if v == 12 { assert s == 65; }
    else if v == 13 { assert s == 69; } else if v == 14 { assert s == 73; } else { assert s == 77; }
  }
}
