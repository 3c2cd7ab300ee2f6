/**
  The symbol stage of web/qr.js: zigzag placement of the codeword bits, the mask search that
  masks and unmasks one pair of grids in place, and the whole encoder. The partner is a
  reader that only looks at the finished modules.
 */
module QrSymbol {
  import opened Bits
  import opened Wrappers
  import opened QrCodewords
  import opened QrPatterns
  import opened QrPenalty

  type Cell = (nat, nat)

  // ---- The zigzag walk ----

  /** The right column of the p-th column pair: size - 1, size - 3, ..., skipping column 6. */
  function RightColumn(size: nat, p: nat): int {
    var right := size - 1 - 2 * p;
    if right <= 6 then right - 1 else right
  }

  function WalkCell(size: nat, p: nat, vert: nat, j: nat): (r: Cell)
    requires size % 2 == 1 && size >= 21 && p < (size - 1) / 2 && vert < size && j < 2
    ensures r.0 < size && r.1 < size && r.1 != 6
  {
    var right := RightColumn(size, p);
    var upward := (right + 1) / 2 % 2 == 0;
    (if upward then size - 1 - vert else vert, right - j)
  }

  /** The data modules from step (p, vert, j) of the walk on, in walking order. */
  function FreeFrom(v: nat, p: nat, vert: nat, j: nat): seq<Cell>
    requires 1 <= v <= MAX_VERSION && vert <= Size(v) && j <= 2
    decreases Size(v) - p, Size(v) - vert, 2 - j
  {
    var size := Size(v);
    if p >= (size - 1) / 2 then []
    else if vert == size then FreeFrom(v, p + 1, 0, 0)
    else if j == 2 then FreeFrom(v, p, vert + 1, 0)
    else
      var cell := WalkCell(size, p, vert, j);
      (if IsFunction(v, cell.0, cell.1) then [] else [cell]) + FreeFrom(v, p, vert, j + 1)
  }

  /** All data modules in walking order. */
  function FreeCells(v: nat): seq<Cell>
    requires 1 <= v <= MAX_VERSION
  {
    FreeFrom(v, 0, 0, 0)
  }

  /** Where in the walk a cell is visited. */
  function StepOf(size: nat, cell: Cell): (nat, nat, nat)
    requires size % 2 == 1 && size >= 21 && cell.0 < size && cell.1 < size && cell.1 != 6
  {
    var m := if cell.1 > 6 then size - 1 - cell.1 else size - 2 - cell.1;
    var right := RightColumn(size, m / 2);
    (m / 2, if (right + 1) / 2 % 2 == 0 then size - 1 - cell.0 else cell.0, m % 2)
  }

  /** The walk and StepOf are inverse: every cell outside column 6 is visited at exactly one step. */
  lemma WalkBijective(size: nat, p: nat, vert: nat, j: nat)
    requires size % 2 == 1 && size >= 21 && p < (size - 1) / 2 && vert < size && j < 2
    ensures StepOf(size, WalkCell(size, p, vert, j)) == (p, vert, j)
  {
  }

  lemma StepBijective(size: nat, cell: Cell)
    requires size % 2 == 1 && size >= 21 && cell.0 < size && cell.1 < size && cell.1 != 6
    ensures var s := StepOf(size, cell);
      s.0 < (size - 1) / 2 && s.1 < size && s.2 < 2 && WalkCell(size, s.0, s.1, s.2) == cell
  {
  }

  predicate NotBefore(s: (nat, nat, nat), p: nat, vert: nat, j: nat) {
    s.0 > p || (s.0 == p && (s.1 > vert || (s.1 == vert && s.2 >= j)))
  }

  /** l holds data modules visited from step (p, vert, j) on, each once. */
  ghost predicate Ordered(v: nat, l: seq<Cell>, p: nat, vert: nat, j: nat)
    requires 1 <= v <= MAX_VERSION
  {
    && (forall k :: 0 <= k < |l| ==> DataModule(v, l[k]) && NotBefore(StepOf(Size(v), l[k]), p, vert, j))
    && (forall a, b :: 0 <= a < b < |l| ==> l[a] != l[b])
  }

  predicate DataModule(v: nat, cell: Cell)
    requires 1 <= v <= MAX_VERSION
  {
    cell.0 < Size(v) && cell.1 < Size(v) && cell.1 != 6 && !IsFunction(v, cell.0, cell.1)
  }

  lemma {:induction false} FreeFromOrdered(v: nat, p: nat, vert: nat, j: nat)
    requires 1 <= v <= MAX_VERSION && vert <= Size(v) && j <= 2
    ensures Ordered(v, FreeFrom(v, p, vert, j), p, vert, j)
    decreases Size(v) - p, Size(v) - vert, 2 - j
  {
    hide IsFunction, StepOf, WalkCell;
    var size := Size(v);
    if p >= (size - 1) / 2 {
    } else if vert == size {
      FreeFromOrdered(v, p + 1, 0, 0);
    } else if j == 2 {
      FreeFromOrdered(v, p, vert + 1, 0);
    } else {
      FreeFromOrdered(v, p, vert, j + 1);
      WalkBijective(size, p, vert, j);
      WalkInside(size, p, vert, j);
      OrderedNext(v, p, vert, j, WalkCell(size, p, vert, j), FreeFrom(v, p, vert, j + 1));
    }
  }

  lemma WalkInside(size: nat, p: nat, vert: nat, j: nat)
    requires size % 2 == 1 && size >= 21 && p < (size - 1) / 2 && vert < size && j < 2
    ensures var cell := WalkCell(size, p, vert, j);
      cell.0 < size && cell.1 < size && cell.1 != 6
  {
  }

  /** One more data module, in front of the later ones. */
  lemma OrderedNext(v: nat, p: nat, vert: nat, j: nat, cell: Cell, rest: seq<Cell>)
    requires 1 <= v <= MAX_VERSION && vert < Size(v) && j < 2 && Ordered(v, rest, p, vert, j + 1)
    requires cell.0 < Size(v) && cell.1 < Size(v) && cell.1 != 6 && StepOf(Size(v), cell) == (p, vert, j)
    ensures Ordered(v, (if IsFunction(v, cell.0, cell.1) then [] else [cell]) + rest, p, vert, j)
  {
    hide IsFunction, StepOf, NotBefore;
    if IsFunction(v, cell.0, cell.1) {
      assert [] + rest == rest;
      forall k | 0 <= k < |rest| ensures NotBefore(StepOf(Size(v), rest[k]), p, vert, j) {
        Later(StepOf(Size(v), rest[k]), p, vert, j);
      }
    } else {
      var all := [cell] + rest;
      Now(p, vert, j);
      forall k | 0 <= k < |rest| ensures rest[k] != cell && NotBefore(StepOf(Size(v), rest[k]), p, vert, j) {
        Later(StepOf(Size(v), rest[k]), p, vert, j);
      }
      assert forall k :: 0 < k < |all| ==> all[k] == rest[k - 1];
      forall a, b | 0 <= a < b < |all| ensures all[a] != all[b] {
        if a > 0 {
          assert rest[a - 1] != rest[b - 1];
        }
      }
    }
  }

  lemma Later(s: (nat, nat, nat), p: nat, vert: nat, j: nat)
    requires NotBefore(s, p, vert, j + 1)
    ensures NotBefore(s, p, vert, j) && s != (p, vert, j)
  {
  }

  lemma Now(p: nat, vert: nat, j: nat)
    ensures NotBefore((p, vert, j), p, vert, j)
  {
  }

  /** Every data module not visited before is in the rest of the walk. */
  lemma {:induction false} FreeFromComplete(v: nat, p: nat, vert: nat, j: nat, cell: Cell)
    requires 1 <= v <= MAX_VERSION && vert <= Size(v) && j <= 2
    requires DataModule(v, cell)
    requires NotBefore(StepOf(Size(v), cell), p, vert, j)
    ensures cell in FreeFrom(v, p, vert, j)
    decreases Size(v) - p, Size(v) - vert, 2 - j
  {
    hide IsFunction, StepOf, WalkCell, FreeFrom;
    var size := Size(v);
    StepBijective(size, cell);
    FreeFromStep(v, p, vert, j);
    if vert == size {
      FreeFromComplete(v, p + 1, 0, 0, cell);
    } else if j == 2 {
      FreeFromComplete(v, p, vert + 1, 0, cell);
    } else if StepOf(size, cell) != (p, vert, j) {
      FreeFromComplete(v, p, vert, j + 1, cell);
    }
  }

  /** The walk visits every data module exactly once and nothing else. */
  lemma FreeCellsExact(v: nat)
    requires 1 <= v <= MAX_VERSION
    ensures forall cell :: cell in FreeCells(v) <==> DataModule(v, cell)
    ensures forall a, b :: 0 <= a < b < |FreeCells(v)| ==> FreeCells(v)[a] != FreeCells(v)[b]
  {
    hide IsFunction, FreeFrom, StepOf;
    FreeFromOrdered(v, 0, 0, 0);
    forall cell | DataModule(v, cell) ensures cell in FreeCells(v) {
      FreeFromComplete(v, 0, 0, 0, cell);
    }
  }

  // ---- Data placement ----

  /** The first n walk cells show the first n bits and every other module is as it was. */
  ghost predicate Shows(cv: Canvas, cells: seq<Cell>, bits: seq<bit>, n: nat, before: Grid)
    requires cv.Valid() && n <= |cells| && n <= |bits|
    requires Within(cells, cv.size)
    requires IsGrid(before, cv.size)
    reads cv.modules
  {
    && (forall k :: 0 <= k < n ==> cv.modules[cells[k].0, cells[k].1] == (bits[k] == 1))
    && (forall r: nat, c: nat :: r < cv.size && c < cv.size && (r, c) !in cells[..n] ==> cv.modules[r, c] == before[r][c])
  }

  predicate Within(cells: seq<Cell>, size: nat) {
    forall k :: 0 <= k < |cells| ==> cells[k].0 < size && cells[k].1 < size
  }

  function Min(a: nat, b: nat): nat {
    if a <= b then a else b
  }

  lemma ShowNext(cv: Canvas, cells: seq<Cell>, n: nat)
    requires n < |cells| && forall a, b :: 0 <= a < b < |cells| ==> cells[a] != cells[b]
    ensures forall k :: 0 <= k < n ==> cells[k] != cells[n]
    ensures forall cell :: cell in cells[..n + 1] <==> cell in cells[..n] || cell == cells[n]
  {
    assert cells[..n + 1] == cells[..n] + [cells[n]];
  }

  /** The state of the placement after idx data modules of the walk. */
  ghost predicate PlacedUpTo(cv: Canvas, v: nat, codewords: seq<byte>, idx: nat, before: Grid)
    requires 1 <= v <= MAX_VERSION
    reads cv.modules
  {
    && cv.Valid() && cv.size == Size(v) && IsGrid(before, cv.size)
    && Within(FreeCells(v), cv.size) && idx <= |FreeCells(v)|
    && Shows(cv, FreeCells(v), ToBits(codewords), Min(idx, 8 * |codewords|), before)
  }

  lemma FreeCellsWithin(v: nat)
    requires 1 <= v <= MAX_VERSION
    ensures Within(FreeCells(v), Size(v))
  {
    hide IsFunction, FreeFrom;
    FreeCellsExact(v);
    forall k | 0 <= k < |FreeCells(v)| ensures DataModule(v, FreeCells(v)[k]) {
      assert FreeCells(v)[k] in FreeCells(v);
    }
  }

  /** Zigzag data placement: codeword bits go to the data modules in walking order. */
  method PlaceData(cv: Canvas, v: nat, codewords: seq<byte>)
    requires 1 <= v <= MAX_VERSION && cv.Valid() && cv.size == Size(v)
    requires forall r, c :: cv.In(r, c) ==> cv.isFunction[r, c] == IsFunction(v, r, c)
    modifies cv.modules
    ensures PlacedUpTo(cv, v, codewords, |FreeCells(v)|, old(Snapshot(cv.modules)))
  {
    hide IsFunction, FreeFrom, ToBits, Snapshot;
    var size: int := cv.size;
    ghost var before := Snapshot(cv.modules);
    ghost var cells := FreeCells(v);
    FreeCellsWithin(v);
    var bitIndex := 0;
    ghost var idx: nat := 0;
    ghost var p: nat := 0;
    var right := size - 1;
    while right >= 1
      invariant p <= (size - 1) / 2 && right == (if size - 1 - 2 * p >= 6 then size - 1 - 2 * p else size - 2 - 2 * p)
      invariant PlacedUpTo(cv, v, codewords, idx, before) && FreeFrom(v, p, 0, 0) == cells[idx..]
      invariant bitIndex == Min(idx, 8 * |codewords|)
      decreases right
    {
      if right == 6 {
        right := 5;
      }
      bitIndex, idx := PlacePair(cv, v, codewords, right, bitIndex, p, idx, before);
      right := right - 2;
      p := p + 1;
    }
    FreeFromStep(v, p, 0, 0);
  }

  /** One pair of columns, walked over its whole height. */
  method PlacePair(cv: Canvas, v: nat, codewords: seq<byte>, right: int, bitIndex: nat,
      ghost p: nat, ghost idx: nat, ghost before: Grid)
    returns (next: nat, ghost nextIdx: nat)
    requires 1 <= v <= MAX_VERSION && PlacedUpTo(cv, v, codewords, idx, before)
    requires forall r, c :: cv.In(r, c) ==> cv.isFunction[r, c] == IsFunction(v, r, c)
    requires p < (Size(v) - 1) / 2 && right == RightColumn(Size(v), p)
    requires FreeFrom(v, p, 0, 0) == FreeCells(v)[idx..] && bitIndex == Min(idx, 8 * |codewords|)
    modifies cv.modules
    ensures PlacedUpTo(cv, v, codewords, nextIdx, before)
    ensures FreeFrom(v, p + 1, 0, 0) == FreeCells(v)[nextIdx..] && next == Min(nextIdx, 8 * |codewords|)
  {
    hide IsFunction, FreeFrom, ToBits, StepOf, WalkCell, RightColumn, PlacedUpTo, FreeCells;
    PlacedFacts(cv, v, codewords, idx, before);
    var size := cv.size;
    ghost var cells := FreeCells(v);
    next, nextIdx := bitIndex, idx;
    for vert := 0 to size
      invariant nextIdx <= |cells| && PlacedUpTo(cv, v, codewords, nextIdx, before)
      invariant FreeFrom(v, p, vert, 0) == cells[nextIdx..] && next == Min(nextIdx, 8 * |codewords|)
    {
      next, nextIdx := PlaceRow(cv, v, codewords, right, vert, next, p, nextIdx, before);
    }
    FreeFromStep(v, p, size, 0);
  }

  /** Both modules of the pair in one row. */
  method PlaceRow(cv: Canvas, v: nat, codewords: seq<byte>, right: int, vert: nat, bitIndex: nat,
      ghost p: nat, ghost idx: nat, ghost before: Grid)
    returns (next: nat, ghost nextIdx: nat)
    requires 1 <= v <= MAX_VERSION && PlacedUpTo(cv, v, codewords, idx, before)
    requires forall r, c :: cv.In(r, c) ==> cv.isFunction[r, c] == IsFunction(v, r, c)
    requires p < (Size(v) - 1) / 2 && right == RightColumn(Size(v), p) && vert < Size(v)
    requires FreeFrom(v, p, vert, 0) == FreeCells(v)[idx..] && bitIndex == Min(idx, 8 * |codewords|)
    modifies cv.modules
    ensures PlacedUpTo(cv, v, codewords, nextIdx, before) && nextIdx <= |FreeCells(v)|
    ensures FreeFrom(v, p, vert + 1, 0) == FreeCells(v)[nextIdx..] && next == Min(nextIdx, 8 * |codewords|)
  {
    hide IsFunction, FreeFrom, ToBits, StepOf, WalkCell, RightColumn, PlacedUpTo, FreeCells;
    PlacedFacts(cv, v, codewords, idx, before);
    var size := cv.size;
    ghost var cells := FreeCells(v);
    next, nextIdx := bitIndex, idx;
    for j := 0 to 2
      invariant nextIdx <= |cells| && PlacedUpTo(cv, v, codewords, nextIdx, before)
      invariant FreeFrom(v, p, vert, j) == cells[nextIdx..] && next == Min(nextIdx, 8 * |codewords|)
    {
      WalkStep(v, p, vert, j, right);
      FreeFromStep(v, p, vert, j);
      var col := right - j;
      var upward := (right + 1) / 2 % 2 == 0;
      var row := if upward then size - 1 - vert else vert;
      if !cv.isFunction[row, col] {
        NextCell(v, nextIdx, (row, col), FreeFrom(v, p, vert, j + 1));
        next := PlaceNext(cv, v, row, col, codewords, next, nextIdx, before);
        nextIdx := nextIdx + 1;
      }
    }
    FreeFromStep(v, p, vert, 2);
  }

  lemma PlacedFacts(cv: Canvas, v: nat, codewords: seq<byte>, idx: nat, before: Grid)
    requires 1 <= v <= MAX_VERSION && PlacedUpTo(cv, v, codewords, idx, before)
    ensures cv.Valid() && cv.size == Size(v) && idx <= |FreeCells(v)|
  {
    hide IsFunction, FreeFrom, ToBits, FreeCells, Shows;
  }

  lemma NextCell(v: nat, idx: nat, cell: Cell, rest: seq<Cell>)
    requires 1 <= v <= MAX_VERSION && idx <= |FreeCells(v)| && FreeCells(v)[idx..] == [cell] + rest
    ensures idx < |FreeCells(v)| && FreeCells(v)[idx] == cell && FreeCells(v)[idx + 1..] == rest
  {
    hide FreeCells;
    assert FreeCells(v)[idx..][0] == cell && FreeCells(v)[idx..][1..] == rest;
  }

  method PlaceNext(cv: Canvas, v: nat, row: nat, col: nat, codewords: seq<byte>, bitIndex: nat, ghost idx: nat, ghost before: Grid)
    returns (next: nat)
    requires 1 <= v <= MAX_VERSION && PlacedUpTo(cv, v, codewords, idx, before)
    requires idx < |FreeCells(v)| && FreeCells(v)[idx] == (row, col) && bitIndex == Min(idx, 8 * |codewords|)
    modifies cv.modules
    ensures PlacedUpTo(cv, v, codewords, idx + 1, before) && next == Min(idx + 1, 8 * |codewords|)
  {
    hide IsFunction, ToBits, StepOf, FreeCells, Shows;
    FreeCellsExact(v);
    next := PlaceBit(cv, row, col, codewords, bitIndex, FreeCells(v), idx, before);
  }

  /** Writes the next bit, if there is one left, into the data module reached by the walk. */
  method PlaceBit(cv: Canvas, row: nat, col: nat, codewords: seq<byte>, bitIndex: nat,
      ghost cells: seq<Cell>, ghost idx: nat, ghost before: Grid)
    returns (next: nat)
    requires cv.Valid() && Within(cells, cv.size) && IsGrid(before, cv.size)
    requires idx < |cells| && cells[idx] == (row, col) && bitIndex == Min(idx, 8 * |codewords|)
    requires forall a, b :: 0 <= a < b < |cells| ==> cells[a] != cells[b]
    requires Shows(cv, cells, ToBits(codewords), bitIndex, before)
    modifies cv.modules
    ensures next == Min(idx + 1, 8 * |codewords|)
    ensures Shows(cv, cells, ToBits(codewords), next, before)
  {
    hide ToBits, BitsOf;
    next := bitIndex;
    if bitIndex < 8 * |codewords| {
      ShowNext(cv, cells, idx);
      BitAt(codewords, bitIndex);
      cv.modules[row, col] := BitsOf(codewords[bitIndex / 8], 8)[bitIndex % 8] == 1;
      next := bitIndex + 1;
    }
  }

  lemma BitAt(codewords: seq<byte>, k: nat)
    requires k < 8 * |codewords|
    ensures ToBits(codewords)[k] == BitsOf(codewords[k / 8], 8)[k % 8]
  {
  }

  lemma WalkStep(v: nat, p: nat, vert: nat, j: nat, right: int)
    requires 1 <= v <= MAX_VERSION && p < (Size(v) - 1) / 2 && vert < Size(v) && j < 2
    requires right == RightColumn(Size(v), p)
    ensures right >= 1 && WalkCell(Size(v), p, vert, j) == (if (right + 1) / 2 % 2 == 0 then Size(v) - 1 - vert else vert, right - j)
    ensures right - j < Size(v)
  {
  }

  lemma FreeFromStep(v: nat, p: nat, vert: nat, j: nat)
    requires 1 <= v <= MAX_VERSION && vert <= Size(v) && j <= 2
    ensures p >= (Size(v) - 1) / 2 ==> FreeFrom(v, p, vert, j) == []
    ensures p < (Size(v) - 1) / 2 && vert == Size(v) ==> FreeFrom(v, p, vert, j) == FreeFrom(v, p + 1, 0, 0)
    ensures p < (Size(v) - 1) / 2 && vert < Size(v) && j == 2 ==> FreeFrom(v, p, vert, j) == FreeFrom(v, p, vert + 1, 0)
    ensures p < (Size(v) - 1) / 2 && vert < Size(v) && j < 2 ==>
      var cell := WalkCell(Size(v), p, vert, j);
      FreeFrom(v, p, vert, j) == (if IsFunction(v, cell.0, cell.1) then [] else [cell]) + FreeFrom(v, p, vert, j + 1)
  {
    hide IsFunction, WalkCell;
  }

  // ---- Masks ----

  predicate MaskBit(mask: nat, r: nat, c: nat) {
    match mask
    case 0 => (r + c) % 2 == 0
    case 1 => r % 2 == 0
    case 2 => c % 3 == 0
    case 3 => (r + c) % 3 == 0
    case 4 => (r / 2 + c / 3) % 2 == 0
    case 5 => (r * c) % 2 + (r * c) % 3 == 0
    case 6 => ((r * c) % 2 + (r * c) % 3) % 2 == 0
    case _ => ((r + c) % 2 + (r * c) % 3) % 2 == 0
  }

  /** Flips the data modules under a mask, in place. */
  method ApplyMask(cv: Canvas, mask: nat)
    requires cv.Valid()
    modifies cv.modules
    ensures forall r, c :: cv.In(r, c) ==>
      cv.modules[r, c] == (if cv.isFunction[r, c] then old(cv.modules[r, c]) else old(cv.modules[r, c]) != MaskBit(mask, r, c))
  {
    hide MaskBit;
    for r := 0 to cv.size
      invariant forall a, c :: cv.In(a, c) ==>
        cv.modules[a, c] == (if cv.isFunction[a, c] || a >= r then old(cv.modules[a, c]) else old(cv.modules[a, c]) != MaskBit(mask, a, c))
    {
      for c := 0 to cv.size
        invariant forall a, b :: cv.In(a, b) ==>
          cv.modules[a, b] == (if cv.isFunction[a, b] || a > r || (a == r && b >= c) then old(cv.modules[a, b]) else old(cv.modules[a, b]) != MaskBit(mask, a, b))
      {
        if !cv.isFunction[r, c] && MaskBit(mask, r, c) {
          cv.modules[r, c] := !cv.modules[r, c];
        }
      }
    }
  }

  /** The finished symbol with mask m over unmasked data. */
  predicate ModuleDark(v: nat, data: Grid, m: nat, r: nat, c: nat)
    requires 1 <= v <= MAX_VERSION && IsGrid(data, Size(v)) && r < Size(v) && c < Size(v)
  {
    if IsFunction(v, r, c) then PatternDark(v, m, r, c) else data[r][c] != MaskBit(m, r, c)
  }

  function Candidate(v: nat, data: Grid, m: nat): (g: Grid)
    requires 1 <= v <= MAX_VERSION && IsGrid(data, Size(v))
    ensures IsGrid(g, Size(v))
  {
    seq(Size(v), r requires 0 <= r < Size(v) => seq(Size(v), c requires 0 <= c < Size(v) => ModuleDark(v, data, m, r, c)))
  }

  /** Between two masks: the data is unmasked and every function module but the format cells is final. */
  ghost predicate Unmasked(cv: Canvas, v: nat, data: Grid)
    requires 1 <= v <= MAX_VERSION && IsGrid(data, Size(v))
    reads cv.modules, cv.isFunction
  {
    && cv.Valid() && cv.size == Size(v)
    && (forall r, c :: cv.In(r, c) ==> cv.isFunction[r, c] == IsFunction(v, r, c))
    && (forall r, c :: cv.In(r, c) && !IsFunction(v, r, c) ==> cv.modules[r, c] == data[r][c])
    && (forall r, c :: cv.In(r, c) && IsFunction(v, r, c) && !Format(Size(v), r, c) ==> cv.modules[r, c] == PatternDark(v, 0, r, c))
  }

  /** Only format cells depend on the mask. */
  lemma PatternWithoutMask(v: nat, m: nat)
    requires 1 <= v <= MAX_VERSION
    ensures forall r: nat, c: nat :: !Format(Size(v), r, c) ==> PatternDark(v, m, r, c) == PatternDark(v, 0, r, c)
    ensures forall r: nat, c: nat :: Format(Size(v), r, c) ==> IsFunction(v, r, c) && PatternDark(v, m, r, c) == FormatDark(Size(v), m, r, c)
  {
    hide InAlignment, InAlignmentDark, AlignmentPairs, FormatDark, VersionDark;
  }

  /** Masking and drawing the format bits turns the unmasked grid into a candidate. */
  method DressUp(cv: Canvas, v: nat, mask: nat, ghost data: Grid)
    requires 1 <= v <= MAX_VERSION && IsGrid(data, Size(v)) && mask < 8 && Unmasked(cv, v, data)
    modifies cv.modules, cv.isFunction
    ensures forall r, c :: cv.In(r, c) ==> cv.isFunction[r, c] == IsFunction(v, r, c)
    ensures forall r, c :: cv.In(r, c) ==> cv.modules[r, c] == ModuleDark(v, data, mask, r, c)
    ensures Snapshot(cv.modules) == Candidate(v, data, mask)
  {
    hide IsFunction, PatternDark, FormatDark, MaskBit;
    ApplyMask(cv, mask);
    cv.DrawFormatBits(mask);
    PatternWithoutMask(v, mask);
    SameGrid(Snapshot(cv.modules), Candidate(v, data, mask), cv.size);
  }

  lemma SameGrid(g: Grid, h: Grid, size: nat)
    requires IsGrid(g, size) && IsGrid(h, size)
    requires forall r, c :: 0 <= r < size && 0 <= c < size ==> g[r][c] == h[r][c]
    ensures g == h
  {
    forall r | 0 <= r < size ensures g[r] == h[r] {
    }
  }

  /** Applying the mask again restores the data: trying a mask leaves no trace. */
  method Undress(cv: Canvas, v: nat, mask: nat, ghost data: Grid)
    requires 1 <= v <= MAX_VERSION && IsGrid(data, Size(v)) && mask < 8 && cv.Valid() && cv.size == Size(v)
    requires forall r, c :: cv.In(r, c) ==> cv.isFunction[r, c] == IsFunction(v, r, c)
    requires forall r, c :: cv.In(r, c) ==> cv.modules[r, c] == ModuleDark(v, data, mask, r, c)
    modifies cv.modules
    ensures Unmasked(cv, v, data)
  {
    hide IsFunction, PatternDark, MaskBit;
    ApplyMask(cv, mask);
    PatternWithoutMask(v, mask);
  }

  /** best is the smallest of the masks with the least penalty among those below n. */
  ghost predicate Best(v: nat, data: Grid, best: nat, n: nat)
    requires 1 <= v <= MAX_VERSION && IsGrid(data, Size(v))
  {
    && best < n
    && (forall m :: 0 <= m < n ==> Penalty(Candidate(v, data, best)) <= Penalty(Candidate(v, data, m)))
    && (forall m :: 0 <= m < best ==> Penalty(Candidate(v, data, best)) < Penalty(Candidate(v, data, m)))
  }

  /** Tries all eight masks on the one grid and leaves the best candidate in it. */
  method ChooseMask(cv: Canvas, v: nat, ghost data: Grid) returns (bestMask: nat)
    requires 1 <= v <= MAX_VERSION && IsGrid(data, Size(v)) && Unmasked(cv, v, data)
    modifies cv.modules, cv.isFunction
    ensures bestMask < 8 && Best(v, data, bestMask, 8)
    ensures Snapshot(cv.modules) == Candidate(v, data, bestMask)
  {
    hide IsFunction, PatternDark, MaskBit, Penalty, Candidate, Snapshot, ModuleDark;
    bestMask := 0;
    var bestPenalty: Option<nat> := None;
    for mask := 0 to 8
      invariant Unmasked(cv, v, data)
      invariant mask == 0 ==> bestPenalty == None && bestMask == 0
      invariant mask > 0 ==> Best(v, data, bestMask, mask) && bestPenalty == Some(Penalty(Candidate(v, data, bestMask)))
    {
      DressUp(cv, v, mask, data);
      var p := PenaltyScore(cv.modules);
      if bestPenalty.None? || p < bestPenalty.value {
        bestPenalty := Some(p);
        bestMask := mask;
      }
      Undress(cv, v, mask, data);
    }
    DressUp(cv, v, bestMask, data);
  }

  // ---- The reader ----

  function AsBit(dark: bool): bit {
    if dark then 1 else 0
  }

  /**
    Where a mask flips the module in row r and column c, as the reader has it (ISO/IEC 18004:2015, table 10, in terms of
    residues).
   */
  predicate Flips(mask: nat, r: nat, c: nat) {
    match mask
    case 0 => r % 2 == c % 2
    case 1 => r % 2 != 1
    case 2 => c % 3 == 0
    case 3 => r % 3 + c % 3 == 0 || r % 3 + c % 3 == 3
    case 4 => (r % 4 < 2) == (c % 6 < 3)
    case 5 => r * c % 6 == 0
    case 6 => r * c % 6 < 3
    case _ => (r * c % 3 == 1) == (r % 2 != c % 2)
  }

  /** The conditions of both sides select the same modules. */
  lemma MasksAgree(mask: nat, r: nat, c: nat)
    ensures MaskBit(mask, r, c) == Flips(mask, r, c)
  {
    hide MaskBit, Flips;
    if mask < 3 {
      EasyMasks(mask, r, c);
    } else if mask == 3 {
      DiagonalMask(r, c);
    } else if mask == 4 {
      BrickMask(r, c);
    } else if mask < 7 {
      ProductMasks(mask, r, c);
    } else {
      LastMask(mask, r, c);
    }
  }

  lemma EasyMasks(mask: nat, r: nat, c: nat)
    requires mask < 3
    ensures MaskBit(mask, r, c) == Flips(mask, r, c)
  {
    SumModTwo(r, c);
  }

  lemma SumModTwo(r: nat, c: nat)
    ensures (r + c) % 2 == if r % 2 == c % 2 then 0 else 1
  {
  }

  lemma DiagonalMask(r: nat, c: nat)
    ensures MaskBit(3, r, c) == Flips(3, r, c)
  {
    SumModThree(r / 3, r % 3, c / 3, c % 3);
  }

  lemma SumModThree(a: nat, s: nat, b: nat, t: nat)
    requires s < 3 && t < 3
    ensures (3 * a + s + (3 * b + t)) % 3 == if s + t < 3 then s + t else s + t - 3
  {
    DivModUnique(3 * a + s + (3 * b + t), 3, a + b + (if s + t < 3 then 0 else 1), if s + t < 3 then s + t else s + t - 3);
  }

  lemma BrickMask(r: nat, c: nat)
    ensures MaskBit(4, r, c) == Flips(4, r, c)
  {
    HalfOfFour(r);
    HalfOfSix(c);
    SumModTwo(r / 2, c / 3);
  }

  lemma HalfOfFour(n: nat)
    ensures n / 2 % 2 == if n % 4 < 2 then 0 else 1
  {
    var q, t := n / 4, n % 4;
    DivModUnique(n, 2, 2 * q + (if t < 2 then 0 else 1), if t < 2 then t else t - 2);
  }

  lemma HalfOfSix(n: nat)
    ensures n / 3 % 2 == if n % 6 < 3 then 0 else 1
  {
    var q, t := n / 6, n % 6;
    DivModUnique(n, 3, 2 * q + (if t < 3 then 0 else 1), if t < 3 then t else t - 3);
  }

  lemma ProductMasks(mask: nat, r: nat, c: nat)
    requires mask == 5 || mask == 6
    ensures MaskBit(mask, r, c) == Flips(mask, r, c)
  {
    ResiduesOfSix(r * c);
  }

  lemma ResiduesOfSix(n: nat)
    ensures n % 2 + n % 3 == 0 <==> n % 6 == 0
    ensures (n % 2 + n % 3) % 2 == 0 <==> n % 6 < 3
  {
    var q, t := n / 6, n % 6;
    DivModUnique(n, 2, 3 * q + t / 2, t % 2);
    DivModUnique(n, 3, 2 * q + t / 3, t % 3);
  }

  lemma LastMask(mask: nat, r: nat, c: nat)
    requires mask >= 7
    ensures MaskBit(mask, r, c) == Flips(mask, r, c)
  {
    SumModTwo(r, c);
    ParityAndResidue((r + c) % 2, r * c % 3);
  }

  lemma ParityAndResidue(s: nat, t: nat)
    requires s < 2 && t < 3
    ensures (s + t) % 2 == 0 <==> (t == 1) == (s == 1)
  {
  }

  function ReadBit(g: Grid, cell: Cell, mask: nat): bit
    requires IsGrid(g, |g|) && cell.0 < |g| && cell.1 < |g|
  {
    AsBit(g[cell.0][cell.1] != Flips(mask, cell.0, cell.1))
  }

  /** The data modules in walking order, unmasked. */
  function ReadBits(v: nat, g: Grid, mask: nat): (r: seq<bit>)
    requires 1 <= v <= MAX_VERSION && IsGrid(g, Size(v)) && Within(FreeCells(v), Size(v))
    ensures |r| == |FreeCells(v)|
  {
    hide IsFunction, FreeFrom, Flips;
    var cells := FreeCells(v);
    seq(|cells|, k requires 0 <= k < |cells| => ReadBit(g, cells[k], mask))
  }

  /** Reads the data of a finished symbol of a known version and mask. */
  function ReadSymbol(v: nat, g: Grid, mask: nat): Option<seq<byte>>
    requires 1 <= v <= MAX_VERSION && IsGrid(g, Size(v))
  {
    hide IsFunction, FreeFrom, Flips, Info, FromBits, ReadSegment, ReadCodewords;
    FreeCellsWithin(v);
    var bits, n := ReadBits(v, g, mask), 8 * Info(v).total;
    if |bits| < n then None
    else
      var data := ReadCodewords(FromBits(bits[..n]), v);
      if data.None? then None else ReadSegment(data.value, v)
  }

  // ---- Round trip ----

  /** data holds the bits of the codewords on the data modules, in walking order. */
  ghost predicate Carries(v: nat, data: Grid, codewords: seq<byte>)
    requires 1 <= v <= MAX_VERSION && IsGrid(data, Size(v)) && Within(FreeCells(v), Size(v))
  {
    |FreeCells(v)| >= 8 * |codewords| &&
    forall k :: 0 <= k < 8 * |codewords| ==> data[FreeCells(v)[k].0][FreeCells(v)[k].1] == (ToBits(codewords)[k] == 1)
  }

  /** Whatever mask is chosen, the reader gets the bytes back. */
  lemma SymbolReads(v: nat, data: Grid, m: nat, bytes: seq<byte>)
    requires 1 <= v <= MAX_VERSION && IsGrid(data, Size(v)) && m < 8 && |bytes| <= ByteCapacity(v)
    requires Within(FreeCells(v), Size(v)) && Carries(v, data, Codewords(DataBlock(bytes, v), v))
    ensures ReadSymbol(v, Candidate(v, data, m), m) == Some(bytes)
  {
    hide IsFunction, FreeFrom, Codewords, DataBlock, MaskBit, Flips, PatternDark, Info, DataCodewords, ToBits, FromBits, ReadCodewords, ReadSegment;
    var g, block := Candidate(v, data, m), DataBlock(bytes, v);
    var cells, codewords := FreeCells(v), Codewords(block, v);
    var n := 8 * |codewords|;
    FreeCellsExact(v);
    CodewordsLength(block, v);
    var bits := ReadBits(v, g, m);
    forall k | 0 <= k < n ensures bits[k] == ToBits(codewords)[k] {
      assert cells[k] in cells;
      assert DataModule(v, cells[k]);
      MasksAgree(m, cells[k].0, cells[k].1);
    }
    assert bits[..n] == ToBits(codewords);
    FromToBits(codewords);
    CodewordsRead(block, v);
    ReadDataBlock(bytes, v);
  }

  lemma PlacedKeepsPatterns(cv: Canvas, v: nat, codewords: seq<byte>, before: Grid, data: Grid)
    requires 1 <= v <= MAX_VERSION && PlacedUpTo(cv, v, codewords, |FreeCells(v)|, before)
    requires forall r, c :: cv.In(r, c) ==> cv.isFunction[r, c] == IsFunction(v, r, c)
    requires forall r, c :: 0 <= r < Size(v) && 0 <= c < Size(v) ==> before[r][c] == (IsFunction(v, r, c) && PatternDark(v, 0, r, c))
    requires data == Snapshot(cv.modules)
    ensures Unmasked(cv, v, data)
    ensures |FreeCells(v)| >= 8 * |codewords| ==> Carries(v, data, codewords)
  {
    hide IsFunction, PatternDark, FreeFrom, ToBits;
    forall r, c | cv.In(r, c) && IsFunction(v, r, c) ensures cv.modules[r, c] == before[r][c] {
      NeverWalked(v, r, c, Min(|FreeCells(v)|, 8 * |codewords|));
    }
  }

  lemma NeverWalked(v: nat, r: nat, c: nat, n: nat)
    requires 1 <= v <= MAX_VERSION && IsFunction(v, r, c) && n <= |FreeCells(v)|
    ensures (r, c) !in FreeCells(v)[..n]
  {
    hide IsFunction, FreeFrom;
    FreeCellsExact(v);
    assert forall cell :: cell in FreeCells(v)[..n] ==> cell in FreeCells(v);
  }
}
