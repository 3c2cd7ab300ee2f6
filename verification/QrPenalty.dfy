/**
  The penalty rules of web/qr.js. The program scans for runs, blocks and patterns; the
  reference charges each module or window for what ends there.
 */
module QrPenalty {

  type Grid = seq<seq<bool>>

  predicate IsGrid(g: Grid, size: nat) {
    |g| == size && forall r :: 0 <= r < size ==> |g[r]| == size
  }

  /** The current contents of a square grid. */
  function Snapshot(a: array2<bool>): (g: Grid)
    requires a.Length0 == a.Length1
    reads a
    ensures IsGrid(g, a.Length0)
    ensures forall r, c :: 0 <= r < a.Length0 && 0 <= c < a.Length0 ==> g[r][c] == a[r, c]
  {
    seq(a.Length0, r requires 0 <= r < a.Length0 reads a => seq(a.Length1, c requires 0 <= c < a.Length1 reads a => a[r, c]))
  }

  function Column(g: Grid, c: nat): (line: seq<bool>)
    requires IsGrid(g, |g|) && c < |g|
    ensures |line| == |g|
  {
    seq(|g|, r requires 0 <= r < |g| => g[r][c])
  }

  // ---- N1: runs ----

  /** The length of the run of equal modules that ends at i. */
  function RunAt(line: seq<bool>, i: nat): nat
    requires i < |line|
  {
    if i == 0 || line[i] != line[i - 1] then 1 else RunAt(line, i - 1) + 1
  }

  /** The fifth module of a run costs 3 and every later one 1. */
  function RunPoints(run: nat): nat {
    if run < 5 then 0 else if run == 5 then 3 else 1
  }

  function RunCost(line: seq<bool>, n: nat): nat
    requires n <= |line|
  {
    if n == 0 then 0 else RunCost(line, n - 1) + RunPoints(RunAt(line, n - 1))
  }

  function N1(g: Grid, n: nat): nat
    requires IsGrid(g, |g|) && n <= |g|
  {
    if n == 0 then 0
    else N1(g, n - 1) + RunCost(g[n - 1], |g|) + RunCost(Column(g, n - 1), |g|)
  }

  /** What a run of a given length has cost so far. */
  function Pending(run: nat): nat {
    if run >= 5 then 3 + (run - 5) else 0
  }

  method ScoreRuns(line: seq<bool>) returns (score: nat)
    ensures score == RunCost(line, |line|)
  {
    score := 0;
    var run := 1;
    var i := 1;
    while i <= |line|
      invariant 1 <= i <= |line| + 1 || |line| == 0
      invariant i <= |line| ==> run == RunAt(line, i - 1) && score + Pending(run) == RunCost(line, i)
      invariant i > |line| ==> score == RunCost(line, |line|)
    {
      if i < |line| && line[i] == line[i - 1] {
        run := run + 1;
      } else {
        if run >= 5 {
          score := score + 3 + (run - 5);
        }
        run := 1;
      }
      i := i + 1;
    }
  }

  // ---- N2: blocks of one colour ----

  predicate Block(g: Grid, r: nat, c: nat)
    requires IsGrid(g, |g|) && r + 1 < |g| && c + 1 < |g|
  {
    g[r][c] == g[r][c + 1] == g[r + 1][c] == g[r + 1][c + 1]
  }

  function BlockCost(g: Grid, r: nat, n: nat): nat
    requires IsGrid(g, |g|) && r + 1 < |g| && n < |g|
  {
    if n == 0 then 0 else BlockCost(g, r, n - 1) + (if Block(g, r, n - 1) then 3 else 0)
  }

  function N2(g: Grid, n: nat): nat
    requires IsGrid(g, |g|) && n < |g|
  {
    if n == 0 then 0 else N2(g, n - 1) + BlockCost(g, n - 1, |g| - 1)
  }

  // ---- N3: finder-like patterns ----

  const PAT_A := [true, false, true, true, true, false, true, false, false, false, false]
  const PAT_B := [false, false, false, false, true, false, true, true, true, false, true]

  predicate FinderLike(line: seq<bool>, i: nat) {
    i + 11 <= |line| && (line[i..i + 11] == PAT_A || line[i..i + 11] == PAT_B)
  }

  function FinderCost(line: seq<bool>, n: nat): nat {
    if n == 0 then 0 else FinderCost(line, n - 1) + (if FinderLike(line, n - 1) then 40 else 0)
  }

  function N3(g: Grid, n: nat): nat
    requires IsGrid(g, |g|) && n <= |g|
  {
    if n == 0 then 0
    else N3(g, n - 1) + FinderCost(g[n - 1], |g|) + FinderCost(Column(g, n - 1), |g|)
  }

  /** pat.every((p, k) => line[i + k] === p), where reading past the end gives no match. */
  method Matches(line: seq<bool>, i: nat, pat: seq<bool>) returns (b: bool)
    ensures b <==> i + |pat| <= |line| && line[i..i + |pat|] == pat
  {
    for k := 0 to |pat|
      invariant i + k <= |line| || k == 0
      invariant forall m :: 0 <= m < k ==> line[i + m] == pat[m]
    {
      if i + k >= |line| || line[i + k] != pat[k] {
        return false;
      }
    }
    b := i + |pat| <= |line|;
  }

  // ---- N4: balance of dark and light ----

  function DarkInLine(line: seq<bool>, n: nat): nat
    requires n <= |line|
  {
    if n == 0 then 0 else DarkInLine(line, n - 1) + (if line[n - 1] then 1 else 0)
  }

  function Dark(g: Grid, n: nat): nat
    requires n <= |g|
  {
    if n == 0 then 0 else Dark(g, n - 1) + DarkInLine(g[n - 1], |g[n - 1]|)
  }

  /** Whole 5% steps between the share of dark modules and one half, ten points each. */
  function N4(dark: nat, total: nat): nat
    requires total > 0
  {
    10 * Steps(Distance(100 * dark, 50 * total), 5 * total)
  }

  function Distance(a: nat, b: nat): nat {
    if a <= b then b - a else a - b
  }

  function Steps(a: nat, unit: nat): nat
    requires unit > 0
  {
    a / unit
  }

  /** The penalty of a symbol. */
  function Penalty(g: Grid): nat
    requires IsGrid(g, |g|) && |g| > 0
  {
    N1(g, |g|) + N2(g, |g| - 1) + N3(g, |g|) + N4(Dark(g, |g|), |g| * |g|)
  }

  method PenaltyScore(modules: array2<bool>) returns (score: nat)
    requires modules.Length0 == modules.Length1 > 0
    ensures score == Penalty(Snapshot(modules))
  {
    var n1 := ScoreN1(modules);
    var n2 := ScoreN2(modules);
    var n3 := ScoreN3(modules);
    var n4 := ScoreN4(modules);
    score := n1 + n2 + n3 + n4;
  }

  method RowOf(modules: array2<bool>, r: nat) returns (line: seq<bool>)
    requires modules.Length0 == modules.Length1 && r < modules.Length0
    ensures line == Snapshot(modules)[r]
  {
    line := seq(modules.Length1, c requires 0 <= c < modules.Length1 reads modules => modules[r, c]);
  }

  method ColumnOf(modules: array2<bool>, c: nat) returns (line: seq<bool>)
    requires modules.Length0 == modules.Length1 && c < modules.Length0
    ensures line == Column(Snapshot(modules), c)
  {
    line := seq(modules.Length0, r requires 0 <= r < modules.Length0 reads modules => modules[r, c]);
  }

  method ScoreN1(modules: array2<bool>) returns (score: nat)
    requires modules.Length0 == modules.Length1
    ensures score == N1(Snapshot(modules), modules.Length0)
  {
    hide RunCost, Column;
    score := 0;
    for r := 0 to modules.Length0
      invariant score == N1(Snapshot(modules), r)
    {
      var row := RowOf(modules, r);
      var col := ColumnOf(modules, r);
      var a := ScoreRuns(row);
      var b := ScoreRuns(col);
      score := score + a + b;
    }
  }

  method ScoreN2(modules: array2<bool>) returns (score: nat)
    requires modules.Length0 == modules.Length1 > 0
    ensures score == N2(Snapshot(modules), modules.Length0 - 1)
  {
    var size := modules.Length0;
    score := 0;
    for r := 0 to size - 1
      invariant score == N2(Snapshot(modules), r)
    {
      for c := 0 to size - 1
        invariant score == N2(Snapshot(modules), r) + BlockCost(Snapshot(modules), r, c)
      {
        var v := modules[r, c];
        if v == modules[r, c + 1] && v == modules[r + 1, c] && v == modules[r + 1, c + 1] {
          score := score + 3;
        }
      }
    }
  }

  method ScoreN3(modules: array2<bool>) returns (score: nat)
    requires modules.Length0 == modules.Length1
    ensures score == N3(Snapshot(modules), modules.Length0)
  {
    var size := modules.Length0;
    score := 0;
    for r := 0 to size
      invariant score == N3(Snapshot(modules), r)
    {
      var row := RowOf(modules, r);
      var col := ColumnOf(modules, r);
      var both := ScoreFinders(row, col);
      score := score + both;
    }
  }

  /** Both lines of one index, window by window. */
  method ScoreFinders(row: seq<bool>, col: seq<bool>) returns (score: nat)
    requires |row| == |col|
    ensures score == FinderCost(row, |row|) + FinderCost(col, |col|)
  {
    hide FinderLike;
    var size := |row|;
    score := 0;
    var i := 0;
    while i + 11 <= size
      invariant i <= size
      invariant score == FinderCost(row, i) + FinderCost(col, i)
    {
      var a := Matches(row, i, PAT_A);
      var b := Matches(row, i, PAT_B);
      FinderIs(row, i);
      FinderIs(col, i);
      if a || b {
        score := score + 40;
      }
      a := Matches(col, i, PAT_A);
      b := Matches(col, i, PAT_B);
      if a || b {
        score := score + 40;
      }
      i := i + 1;
    }
    NoLateFinder(row, i, size);
    NoLateFinder(col, i, size);
  }

  lemma FinderIs(line: seq<bool>, i: nat)
    requires i + 11 <= |line|
    ensures FinderLike(line, i) <==>
      (i + |PAT_A| <= |line| && line[i..i + |PAT_A|] == PAT_A) || (i + |PAT_B| <= |line| && line[i..i + |PAT_B|] == PAT_B)
  {
  }

  /** Windows that would leave the line never match. */
  lemma {:induction false} NoLateFinder(line: seq<bool>, i: nat, n: nat)
    requires i <= n == |line| && i + 11 > n
    ensures FinderCost(line, n) == FinderCost(line, i)
  {
    var k := n;
    while k > i
      invariant i <= k <= n && FinderCost(line, n) == FinderCost(line, k)
    {
      k := k - 1;
    }
  }

  method ScoreN4(modules: array2<bool>) returns (score: nat)
    requires modules.Length0 == modules.Length1 > 0
    ensures score == N4(Dark(Snapshot(modules), modules.Length0), modules.Length0 * modules.Length0)
  {
    hide Steps;
    var dark := CountDark(modules);
    var total := modules.Length0 * modules.Length0;
    score := Steps(Distance(100 * dark, 50 * total), 5 * total) * 10;
  }

  method CountDark(modules: array2<bool>) returns (dark: nat)
    requires modules.Length0 == modules.Length1
    ensures dark == Dark(Snapshot(modules), modules.Length0)
  {
    dark := 0;
    for r := 0 to modules.Length0
      invariant dark == Dark(Snapshot(modules), r)
    {
      for c := 0 to modules.Length0
        invariant dark == Dark(Snapshot(modules), r) + DarkInLine(Snapshot(modules)[r], c)
      {
        if modules[r, c] {
          dark := dark + 1;
        }
      }
    }
  }
}
