/**
 * The Connect Four board as a value: its dimensions, the four scans that the
 * win test walks through the last-played cell, the win test itself as the
 * program computes it, the corrected per-line win test, and gravity.
 *
 * Row 0 is the top of the board and row ROWS - 1 the bottom, as in the program.
 */
module ConnectFourRules {
  import opened Seeds
  import opened GameState

  const ROWS := 6
  const COLS := 7

  /** A board snapshot, indexed as g[row][col]. */
  type Grid = seq<seq<Seed>>

  predicate IsGrid(g: Grid) {
    |g| == ROWS && forall r :: 0 <= r < ROWS ==> |g[r]| == COLS
  }

  /** A scan position counts as a match when it lies on the board and holds `seed`. */
  predicate Matches(g: Grid, seed: Seed, r: int, c: int) {
    0 <= r < |g| && 0 <= c < |g[r]| && g[r][c] == seed
  }

  // ---------------------------------------------------------------------------
  // The four scans through (r0, c0)
  // ---------------------------------------------------------------------------

  /** Left to right along row r0. */
  function RowScan(g: Grid, seed: Seed, r0: int): seq<bool> {
    seq(COLS, c => Matches(g, seed, r0, c))
  }

  /** Top to bottom along column c0. */
  function ColumnScan(g: Grid, seed: Seed, c0: int): seq<bool> {
    seq(ROWS, r => Matches(g, seed, r, c0))
  }

  /** Top to bottom along the anti-diagonal r + c == r0 + c0. */
  function AntiDiagonalScan(g: Grid, seed: Seed, r0: int, c0: int): seq<bool> {
    seq(ROWS, r => Matches(g, seed, r, r0 + c0 - r))
  }

  /**
   * The fourth scan as the program writes it: at row r it looks at column
   * r0 - c0 + r, that is along the diagonal c - r == r0 - c0.
   */
  function DiagonalScanAsWritten(g: Grid, seed: Seed, r0: int, c0: int): seq<bool> {
    seq(ROWS, r => Matches(g, seed, r, r0 - c0 + r))
  }

  /** Top to bottom along the diagonal through (r0, c0), c - r == c0 - r0. */
  function DiagonalScan(g: Grid, seed: Seed, r0: int, c0: int): seq<bool> {
    seq(ROWS, r => Matches(g, seed, r, c0 - r0 + r))
  }

  /**
   * The cell the program's win test looks at in step k of its scans through
   * (r0, c0): the row, then the column, then the anti-diagonal, then the
   * diagonal as written.
   */
  function ScanCell(r0: int, c0: int, k: int): (int, int) {
    if k < COLS then (r0, k)
    else if k < COLS + ROWS then (k - COLS, c0)
    else if k < COLS + 2 * ROWS then (k - COLS - ROWS, r0 + c0 - (k - COLS - ROWS))
    else (k - COLS - 2 * ROWS, r0 - c0 + (k - COLS - 2 * ROWS))
  }

  /** How many cells the four scans look at in all. */
  const SCAN_STEPS := COLS + 3 * ROWS

  /** Every step of the four scans, in the order the program runs them: whether the visited cell holds `seed`. */
  function Scans(g: Grid, seed: Seed, r0: int, c0: int): seq<bool> {
    seq(SCAN_STEPS, k => Matches(g, seed, ScanCell(r0, c0, k).0, ScanCell(r0, c0, k).1))
  }

  /** Step k of the scans looks at ScanCell(r0, c0, k). */
  lemma ScansAt(g: Grid, seed: Seed, r0: int, c0: int, k: int)
    requires 0 <= k < SCAN_STEPS
    ensures |Scans(g, seed, r0, c0)| == SCAN_STEPS
    ensures Scans(g, seed, r0, c0)[k] == Matches(g, seed, ScanCell(r0, c0, k).0, ScanCell(r0, c0, k).1)
  {
  }

  /** The steps are the four scans one after the other. */
  lemma ScansConcatenate(g: Grid, seed: Seed, r0: int, c0: int)
    ensures Scans(g, seed, r0, c0) == RowScan(g, seed, r0) + ColumnScan(g, seed, c0)
      + AntiDiagonalScan(g, seed, r0, c0) + DiagonalScanAsWritten(g, seed, r0, c0)
  {
  }

  // ---------------------------------------------------------------------------
  // Runs of four
  // ---------------------------------------------------------------------------

  /** Four consecutive matches start at index i. */
  predicate FourAt(bs: seq<bool>, i: int) {
    0 <= i && i + 4 <= |bs| && bs[i] && bs[i + 1] && bs[i + 2] && bs[i + 3]
  }

  predicate HasFour(bs: seq<bool>) {
    exists i :: 0 <= i <= |bs| - 4 && FourAt(bs, i)
  }

  /** The number of consecutive matches at the end of bs: the value of a running counter. */
  function Streak(bs: seq<bool>): (n: nat)
    ensures n <= |bs|
  {
    if |bs| == 0 || !bs[|bs| - 1] then 0 else Streak(bs[..|bs| - 1]) + 1
  }

  /** Every one of the last Streak(bs) entries is a match. */
  lemma {:induction false} StreakCells(bs: seq<bool>, k: nat)
    requires k < Streak(bs)
    ensures bs[|bs| - 1 - k]
  {
    if k > 0 {
      StreakCells(bs[..|bs| - 1], k - 1);
    }
  }

  /** A run of k matches at the end makes the counter at least k. */
  lemma {:induction false} StreakCovers(bs: seq<bool>, k: nat)
    requires k <= |bs|
    requires forall j :: |bs| - k <= j < |bs| ==> bs[j]
    ensures Streak(bs) >= k
  {
    if k > 0 {
      var front := bs[..|bs| - 1];
      assert forall j :: |front| - (k - 1) <= j < |front| ==> front[j] == bs[j];
      StreakCovers(front, k - 1);
    }
  }

  /**
   * One step of the running counter: while no run of four has been seen the
   * counter stays below four, and appending one more entry creates a run of
   * four exactly when it is a match and the counter was at three.
   */
  lemma CounterStep(bs: seq<bool>, b: bool)
    requires !HasFour(bs)
    ensures Streak(bs) < 4
    ensures Streak(bs + [b]) == if b then Streak(bs) + 1 else 0
    ensures HasFour(bs + [b]) <==> b && Streak(bs) == 3
  {
    var n := |bs|;
    var t := bs + [b];
    assert t[..n] == bs;
    if Streak(bs) >= 4 {
      StreakCells(bs, 0);
      StreakCells(bs, 1);
      StreakCells(bs, 2);
      StreakCells(bs, 3);
      assert FourAt(bs, n - 4);
      assert false;
    }
    if b && Streak(bs) == 3 {
      StreakCells(bs, 0);
      StreakCells(bs, 1);
      StreakCells(bs, 2);
      assert FourAt(t, n - 3);
    }
    if HasFour(t) {
      var i :| FourAt(t, i);
      assert FourAt(t, i);
      if i + 4 <= n {
        assert t[i] == bs[i] && t[i + 1] == bs[i + 1] && t[i + 2] == bs[i + 2] && t[i + 3] == bs[i + 3];
        assert FourAt(bs, i);
        assert false;
      }
      assert i == n - 3 && b;
      StreakCovers(bs, 3);
    }
  }

  /**
   * The program's running counter after the entries of bs: one more on a
   * match, back to zero on a miss, and stuck at four once it gets there
   * (the scan stops).
   */
  function Counter(bs: seq<bool>): (n: nat)
    ensures n <= 4
  {
    if |bs| == 0 then 0
    else
      var before := Counter(bs[..|bs| - 1]);
      if before == 4 then 4 else if bs[|bs| - 1] then before + 1 else 0
  }

  /**
   * The counter reaches four exactly when the entries hold four consecutive
   * matches; until then it equals the length of the trailing run.
   */
  lemma {:induction false} CounterFindsFour(bs: seq<bool>)
    ensures Counter(bs) == 4 <==> HasFour(bs)
    ensures Counter(bs) < 4 ==> Counter(bs) == Streak(bs)
  {
    if |bs| > 0 {
      var front, b := bs[..|bs| - 1], bs[|bs| - 1];
      assert bs == front + [b];
      CounterFindsFour(front);
      if Counter(front) == 4 {
        FourInPrefix(front, bs);
      } else {
        CounterStep(front, b);
      }
    }
  }

  /** One step of the counter over a prefix of `all`, and what reaching four means for `all`. */
  lemma CounterAdvance(all: seq<bool>, k: nat)
    requires k < |all|
    ensures var c := Counter(all[..k]);
      Counter(all[..k + 1]) == if c == 4 then 4 else if all[k] then c + 1 else 0
    ensures Counter(all[..k + 1]) == 4 ==> HasFour(all)
  {
    assert all[..k + 1][..k] == all[..k];
    if Counter(all[..k + 1]) == 4 {
      CounterFindsFour(all[..k + 1]);
      FourInPrefix(all[..k + 1], all);
    }
  }

  /** A run of four in a prefix is a run of four in the whole sequence. */
  lemma FourInPrefix(bs: seq<bool>, whole: seq<bool>)
    requires HasFour(bs) && bs <= whole
    ensures HasFour(whole)
  {
    var i :| FourAt(bs, i);
    assert FourAt(bs, i);
    assert whole[..|bs|] == bs;
    assert whole[i] == bs[i] && whole[i + 1] == bs[i + 1] && whole[i + 2] == bs[i + 2] && whole[i + 3] == bs[i + 3];
    assert FourAt(whole, i);
  }

  // ---------------------------------------------------------------------------
  // The win test as written and the corrected one
  // ---------------------------------------------------------------------------

  /**
   * The program's win test for a move at (r0, c0): one counter runs through the
   * row, column, anti-diagonal and (as written) diagonal scans without being
   * reset between them, and the test succeeds when it reaches four.
   */
  predicate Win(g: Grid, seed: Seed, r0: int, c0: int) {
    HasFour(Scans(g, seed, r0, c0))
  }

  /** The program's counter after the first k steps of the scans through (r0, c0). */
  function CounterAfter(g: Grid, seed: Seed, r0: int, c0: int, k: nat): (n: nat)
    ensures n <= 4
  {
    if k == 0 then 0
    else
      var before := CounterAfter(g, seed, r0, c0, k - 1);
      var cell := ScanCell(r0, c0, k - 1);
      if before == 4 then 4 else if Matches(g, seed, cell.0, cell.1) then before + 1 else 0
  }

  /** One step of that counter below four, given the cell the step visits. */
  lemma CounterAfterNext(g: Grid, seed: Seed, r0: int, c0: int, k: nat, r: int, c: int)
    requires ScanCell(r0, c0, k) == (r, c) && CounterAfter(g, seed, r0, c0, k) < 4
    ensures CounterAfter(g, seed, r0, c0, k + 1) ==
      if Matches(g, seed, r, c) then CounterAfter(g, seed, r0, c0, k) + 1 else 0
  {
  }

  /** Once at four the counter stays at four: the scan has stopped. */
  lemma {:induction false} CounterAfterSticks(g: Grid, seed: Seed, r0: int, c0: int, k: nat, k': nat)
    requires k <= k' && CounterAfter(g, seed, r0, c0, k) == 4
    ensures CounterAfter(g, seed, r0, c0, k') == 4
    decreases k' - k
  {
    if k < k' {
      CounterAfterSticks(g, seed, r0, c0, k + 1, k');
    }
  }

  /** Step by step, that counter is the counter run over the first k entries of the scans. */
  lemma {:induction false} CounterAfterPrefix(g: Grid, seed: Seed, r0: int, c0: int, k: nat)
    requires k <= SCAN_STEPS
    ensures CounterAfter(g, seed, r0, c0, k) == Counter(Scans(g, seed, r0, c0)[..k])
  {
    if k > 0 {
      CounterAfterPrefix(g, seed, r0, c0, k - 1);
      ScansAt(g, seed, r0, c0, k - 1);
      CounterAdvance(Scans(g, seed, r0, c0), k - 1);
    }
  }

  /** The counter reaching four at any step means the move wins. */
  lemma CounterAfterWins(g: Grid, seed: Seed, r0: int, c0: int, k: nat)
    requires k <= SCAN_STEPS && CounterAfter(g, seed, r0, c0, k) == 4
    ensures Win(g, seed, r0, c0)
  {
    CounterAfterPrefix(g, seed, r0, c0, k);
    var all := Scans(g, seed, r0, c0);
    CounterFindsFour(all[..k]);
    FourInPrefix(all[..k], all);
  }

  /** After the last step the counter is at four exactly when the move wins. */
  lemma CounterAfterAll(g: Grid, seed: Seed, r0: int, c0: int)
    ensures CounterAfter(g, seed, r0, c0, SCAN_STEPS) == 4 <==> Win(g, seed, r0, c0)
  {
    CounterAfterPrefix(g, seed, r0, c0, SCAN_STEPS);
    var all := Scans(g, seed, r0, c0);
    assert all[..SCAN_STEPS] == all;
    CounterFindsFour(all);
  }

  /** The intended test: four in a row on one of the four lines through (r0, c0), each judged on its own. */
  predicate LineWin(g: Grid, seed: Seed, r0: int, c0: int) {
    HasFour(RowScan(g, seed, r0)) || HasFour(ColumnScan(g, seed, c0))
      || HasFour(AntiDiagonalScan(g, seed, r0, c0)) || HasFour(DiagonalScan(g, seed, r0, c0))
  }

  /** The four line directions through a cell. */
  datatype Direction = Horizontal | Vertical | AntiDiagonal | Diagonal

  /** The row and column step of a direction. */
  function DeltaRow(d: Direction): int {
    if d == Horizontal then 0 else 1
  }

  function DeltaCol(d: Direction): int {
    match d
    case Horizontal => 1
    case Vertical => 0
    case AntiDiagonal => -1
    case Diagonal => 1
  }

  /** Cell (r, c) lies on the line of direction d through (r0, c0). */
  predicate OnLine(d: Direction, r0: int, c0: int, r: int, c: int) {
    match d
    case Horizontal => r == r0
    case Vertical => c == c0
    case AntiDiagonal => r + c == r0 + c0
    case Diagonal => c - r == c0 - r0
  }

  /** The four cells starting at (r, c) and stepping along d all hold `seed`. */
  predicate FourFrom(g: Grid, seed: Seed, d: Direction, r: int, c: int) {
    var dr, dc := DeltaRow(d), DeltaCol(d);
    Matches(g, seed, r, c) && Matches(g, seed, r + dr, c + dc)
      && Matches(g, seed, r + 2 * dr, c + 2 * dc) && Matches(g, seed, r + 3 * dr, c + 3 * dc)
  }

  /** The cell a corrected scan along d visits at step k: left to right along a row, top to bottom otherwise. */
  function LineCell(r0: int, c0: int, d: Direction, k: int): (int, int) {
    match d
    case Horizontal => (r0, k)
    case Vertical => (k, c0)
    case AntiDiagonal => (k, r0 + c0 - k)
    case Diagonal => (k, c0 - r0 + k)
  }

  /** The corrected scan of the line of direction d through (r0, c0). */
  function LineScan(g: Grid, seed: Seed, r0: int, c0: int, d: Direction): (bs: seq<bool>)
    ensures |bs| == if d == Horizontal then COLS else ROWS
    ensures forall k :: 0 <= k < |bs| ==> bs[k] == Matches(g, seed, LineCell(r0, c0, d, k).0, LineCell(r0, c0, d, k).1)
  {
    match d
    case Horizontal => RowScan(g, seed, r0)
    case Vertical => ColumnScan(g, seed, c0)
    case AntiDiagonal => AntiDiagonalScan(g, seed, r0, c0)
    case Diagonal => DiagonalScan(g, seed, r0, c0)
  }

  /** Some four consecutive cells on one of the lines through (r0, c0) all hold `seed`. */
  ghost predicate FourThrough(g: Grid, seed: Seed, r0: int, c0: int) {
    exists d, r, c :: OnLine(d, r0, c0, r, c) && FourFrom(g, seed, d, r, c)
  }

  /** A run of four along d from (r, c), seen as consecutive entries of the scan of that line. */
  lemma FourFromInScan(g: Grid, seed: Seed, r0: int, c0: int, d: Direction, r: int, c: int)
    requires IsGrid(g) && OnLine(d, r0, c0, r, c) && FourFrom(g, seed, d, r, c)
    ensures d == Horizontal ==> FourAt(RowScan(g, seed, r0), c)
    ensures d == Vertical ==> FourAt(ColumnScan(g, seed, c0), r)
    ensures d == AntiDiagonal ==> FourAt(AntiDiagonalScan(g, seed, r0, c0), r)
    ensures d == Diagonal ==> FourAt(DiagonalScan(g, seed, r0, c0), r)
  {
  }

  /** A run of four in the row or column scan is four in a row on that line. */
  lemma StraightFourOnLine(g: Grid, seed: Seed, r0: int, c0: int)
    requires HasFour(RowScan(g, seed, r0)) || HasFour(ColumnScan(g, seed, c0))
    ensures FourThrough(g, seed, r0, c0)
  {
    if HasFour(RowScan(g, seed, r0)) {
      var i :| FourAt(RowScan(g, seed, r0), i);
      assert FourAt(RowScan(g, seed, r0), i);
      assert OnLine(Horizontal, r0, c0, r0, i) && FourFrom(g, seed, Horizontal, r0, i);
    } else {
      var i :| FourAt(ColumnScan(g, seed, c0), i);
      assert FourAt(ColumnScan(g, seed, c0), i);
      assert OnLine(Vertical, r0, c0, i, c0) && FourFrom(g, seed, Vertical, i, c0);
    }
  }

  /** A run of four in one of the corrected diagonal scans is four in a row on that diagonal. */
  lemma SlantedFourOnLine(g: Grid, seed: Seed, r0: int, c0: int)
    requires HasFour(AntiDiagonalScan(g, seed, r0, c0)) || HasFour(DiagonalScan(g, seed, r0, c0))
    ensures FourThrough(g, seed, r0, c0)
  {
    if HasFour(AntiDiagonalScan(g, seed, r0, c0)) {
      var i :| FourAt(AntiDiagonalScan(g, seed, r0, c0), i);
      assert FourAt(AntiDiagonalScan(g, seed, r0, c0), i);
      assert OnLine(AntiDiagonal, r0, c0, i, r0 + c0 - i) && FourFrom(g, seed, AntiDiagonal, i, r0 + c0 - i);
    } else {
      var i :| FourAt(DiagonalScan(g, seed, r0, c0), i);
      assert FourAt(DiagonalScan(g, seed, r0, c0), i);
      assert OnLine(Diagonal, r0, c0, i, c0 - r0 + i) && FourFrom(g, seed, Diagonal, i, c0 - r0 + i);
    }
  }

  /**
   * The corrected test is exactly "four in a row on a line through the cell":
   * both directions.
   */
  lemma LineWinCorrect(g: Grid, seed: Seed, r0: int, c0: int)
    requires IsGrid(g)
    ensures LineWin(g, seed, r0, c0) <==> FourThrough(g, seed, r0, c0)
  {
    if FourThrough(g, seed, r0, c0) {
      var d, r, c :| OnLine(d, r0, c0, r, c) && FourFrom(g, seed, d, r, c);
      FourFromInScan(g, seed, r0, c0, d, r, c);
    }
    if HasFour(RowScan(g, seed, r0)) || HasFour(ColumnScan(g, seed, c0)) {
      StraightFourOnLine(g, seed, r0, c0);
    } else if LineWin(g, seed, r0, c0) {
      SlantedFourOnLine(g, seed, r0, c0);
    }
  }

  /**
   * The program's test succeeds whenever four in a row lie on the row, the
   * column or the anti-diagonal through the cell.
   */
  lemma FourOnThreeLinesWins(g: Grid, seed: Seed, r0: int, c0: int, d: Direction, r: int, c: int)
    requires IsGrid(g) && d != Diagonal
    requires OnLine(d, r0, c0, r, c) && FourFrom(g, seed, d, r, c)
    ensures Win(g, seed, r0, c0)
  {
    FourFromInScan(g, seed, r0, c0, d, r, c);
    var row, col := RowScan(g, seed, r0), ColumnScan(g, seed, c0);
    var anti, diag := AntiDiagonalScan(g, seed, r0, c0), DiagonalScanAsWritten(g, seed, r0, c0);
    var all := Scans(g, seed, r0, c0);
    match d
    case Horizontal =>
      assert FourAt(all, c);
    case Vertical =>
      assert FourAt(all, |row| + r);
    case AntiDiagonal =>
      assert FourAt(all, |row| + |col| + r);
  }

  /** The scan as written walks the diagonal through the mirrored cell (c0, r0). */
  lemma DiagonalAsWrittenMirrors(g: Grid, seed: Seed, r0: int, c0: int)
    ensures DiagonalScanAsWritten(g, seed, r0, c0) == DiagonalScan(g, seed, c0, r0)
  {
  }

  // ---------------------------------------------------------------------------
  // Moves, fullness and gravity
  // ---------------------------------------------------------------------------

  /** Every cell is empty. */
  predicate Empty(g: Grid)
    requires IsGrid(g)
  {
    forall r, c :: 0 <= r < ROWS && 0 <= c < COLS ==> g[r][c] == NoSeed
  }

  /** No cell is empty. */
  predicate Full(g: Grid)
    requires IsGrid(g)
  {
    forall r, c :: 0 <= r < ROWS && 0 <= c < COLS ==> g[r][c] != NoSeed
  }

  /** Gravity: in every column no empty cell lies below an occupied one. */
  predicate Settled(g: Grid)
    requires IsGrid(g)
  {
    forall r, r', c :: 0 <= r < r' < ROWS && 0 <= c < COLS && g[r][c] != NoSeed ==> g[r'][c] != NoSeed
  }

  /** Column `col` exists and has room for one more seed. */
  predicate Droppable(g: Grid, col: int) {
    0 <= col < COLS && exists r :: 0 <= r < ROWS && Matches(g, NoSeed, r, col)
  }

  /** The lowest empty cell of column `col` at or above row `from`. */
  function LowestEmptyFrom(g: Grid, col: int, from: int): (r: int)
    requires IsGrid(g) && 0 <= col < COLS && from < ROWS
    requires exists r :: 0 <= r <= from && g[r][col] == NoSeed
    ensures 0 <= r <= from && g[r][col] == NoSeed
    ensures forall r' :: r < r' <= from ==> g[r'][col] != NoSeed
    decreases from
  {
    if g[from][col] == NoSeed then from else LowestEmptyFrom(g, col, from - 1)
  }

  /** The row a seed dropped into column `col` comes to rest in. */
  function LandingRow(g: Grid, col: int): (r: int)
    requires IsGrid(g) && Droppable(g, col)
    ensures 0 <= r < ROWS && g[r][col] == NoSeed
    ensures forall r' :: r < r' < ROWS ==> g[r'][col] != NoSeed
  {
    LowestEmptyFrom(g, col, ROWS - 1)
  }

  /** The board with cell (r, c) set to p. */
  function Place(g: Grid, r: int, c: int, p: Seed): (h: Grid)
    requires IsGrid(g) && 0 <= r < ROWS && 0 <= c < COLS
    ensures IsGrid(h) && h[r][c] == p
    ensures forall r', c' :: 0 <= r' < ROWS && 0 <= c' < COLS && (r', c') != (r, c) ==> h[r'][c'] == g[r'][c']
  {
    g[r := g[r][c := p]]
  }

  /** Dropping a seed keeps gravity. */
  lemma DropKeepsSettled(g: Grid, col: int, p: Seed)
    requires IsGrid(g) && Settled(g) && Droppable(g, col)
    ensures Settled(Place(g, LandingRow(g, col), col, p))
  {
  }

  /**
   * Under gravity a column has room exactly when its top cell is empty, and
   * a dropped seed lands below nothing but empty cells.
   */
  lemma SettledColumn(g: Grid, col: int)
    requires IsGrid(g) && Settled(g) && 0 <= col < COLS
    ensures Droppable(g, col) <==> g[0][col] == NoSeed
    ensures Droppable(g, col) ==> forall r :: 0 <= r <= LandingRow(g, col) ==> g[r][col] == NoSeed
  {
    if g[0][col] == NoSeed {
      assert Matches(g, NoSeed, 0, col);
    }
  }

  /** The board with no seed on it. */
  function EmptyGrid(): (g: Grid)
    ensures IsGrid(g) && Empty(g)
  {
    seq(ROWS, _ => seq(COLS, _ => NoSeed))
  }

  /** The empty board satisfies gravity and is not full. */
  lemma EmptySettled(g: Grid)
    requires IsGrid(g) && Empty(g)
    ensures Settled(g) && !Full(g)
  {
    assert g[0][0] == NoSeed;
  }

  // ---------------------------------------------------------------------------
  // Two games on which the program's test and the corrected test disagree
  // ---------------------------------------------------------------------------

  /**
   * Column 6 full, its top three cells crosses and the cell below them a
   * nought; the cross has just been dropped into the top of column 6.
   */
  const CarryOverBoard: Grid := [
    [NoSeed, NoSeed, NoSeed, NoSeed, NoSeed, NoSeed, Cross],
    [NoSeed, NoSeed, NoSeed, NoSeed, NoSeed, NoSeed, Cross],
    [NoSeed, NoSeed, NoSeed, NoSeed, NoSeed, NoSeed, Cross],
    [NoSeed, NoSeed, NoSeed, NoSeed, NoSeed, NoSeed, Nought],
    [NoSeed, Nought, NoSeed, NoSeed, NoSeed, NoSeed, Nought],
    [Cross, Nought, NoSeed, NoSeed, NoSeed, NoSeed, Cross]
  ]

  /**
   * Crosses on the diagonal (2, 0), (3, 1), (4, 2), (5, 3); the cross has just
   * been dropped at (5, 3).
   */
  const MirroredDiagonalBoard: Grid := [
    [NoSeed, NoSeed, NoSeed, NoSeed, NoSeed, NoSeed, NoSeed],
    [NoSeed, NoSeed, NoSeed, NoSeed, NoSeed, NoSeed, NoSeed],
    [Cross, NoSeed, NoSeed, NoSeed, NoSeed, NoSeed, NoSeed],
    [Nought, Cross, NoSeed, NoSeed, NoSeed, NoSeed, NoSeed],
    [Cross, Nought, Cross, NoSeed, NoSeed, NoSeed, NoSeed],
    [Nought, Cross, Nought, Cross, NoSeed, NoSeed, Nought]
  ]

  /** A value that may be missing. */
  datatype Option<T> = None | Some(value: T)

  /**
   * The board after seeds are dropped into the columns `cols` in turn, the
   * first by `p` and then by the two players alternately; None when a column
   * is off the board or full. The replay does not stop at a win or a draw.
   */
  function Replay(g: Grid, p: Seed, cols: seq<int>): (h: Option<Grid>)
    requires IsGrid(g) && p != NoSeed
    ensures h.Some? ==> IsGrid(h.value)
    ensures h.Some? && Settled(g) ==> Settled(h.value)
    decreases |cols|
  {
    if |cols| == 0 then Some(g)
    else if !Droppable(g, cols[0]) then None
    else Replay(Place(g, LandingRow(g, cols[0]), cols[0], p), Other(p), cols[1..])
  }

  /**
   * The board after the clicks `cols`, the first by `p`, each made while the
   * game is still in play: None when a column is off the board or full, or
   * when a drop before the last wins under the program's test or fills the
   * board, so that the game is over before the next click. A game that stays
   * in play reaches the board its drops replay to.
   */
  function Play(g: Grid, p: Seed, cols: seq<int>): (h: Option<Grid>)
    requires IsGrid(g) && p != NoSeed
    ensures h.Some? ==> h == Replay(g, p, cols)
    decreases |cols|
  {
    if |cols| == 0 then Some(g)
    else if !Droppable(g, cols[0]) then None
    else
      var r := LandingRow(g, cols[0]);
      var h := Place(g, r, cols[0], p);
      if |cols| > 1 && (Win(h, p, r, cols[0]) || Full(h)) then None
      else Play(h, Other(p), cols[1..])
  }

  /** For each column, the seeds in it from the bottom up. */
  type Stacks = seq<seq<Seed>>

  predicate IsStacks(s: Stacks) {
    |s| == COLS && forall c :: 0 <= c < COLS ==> |s[c]| <= ROWS && NoSeed !in s[c]
  }

  /** The board on which every column holds its stack, resting on the bottom row. */
  function Stacked(s: Stacks): (g: Grid)
    requires IsStacks(s)
    ensures IsGrid(g) && Settled(g)
    ensures forall c :: 0 <= c < COLS ==> (Droppable(g, c) <==> |s[c]| < ROWS)
  {
    var g := seq(ROWS, r => seq(COLS, c => if 0 <= c < COLS && 0 <= ROWS - 1 - r < |s[c]| then s[c][ROWS - 1 - r] else NoSeed));
    assert forall c :: 0 <= c < COLS && |s[c]| < ROWS ==> Matches(g, NoSeed, 0, c);
    g
  }

  /** The player making drop number k of a replay whose first drop is by `first`. */
  function Mover(first: Seed, k: nat): (p: Seed)
    requires first != NoSeed
    ensures p != NoSeed
  {
    if k % 2 == 0 then first else Other(first)
  }

  /** The seeds that drops k onwards put into column c, in the order they land. */
  function Dropped(first: Seed, cols: seq<int>, c: int, k: nat): (d: seq<Seed>)
    requires first != NoSeed
    ensures NoSeed !in d
    decreases |cols| - k
  {
    if k >= |cols| then []
    else (if cols[k] == c then [Mover(first, k)] else []) + Dropped(first, cols, c, k + 1)
  }

  /** A drop onto a stacked board lands on top of the column's stack. */
  lemma StackedDrop(s: Stacks, c: int, p: Seed)
    requires IsStacks(s) && p != NoSeed && 0 <= c < COLS && |s[c]| < ROWS
    ensures IsStacks(s[c := s[c] + [p]])
    ensures Droppable(Stacked(s), c) && LandingRow(Stacked(s), c) == ROWS - 1 - |s[c]|
    ensures Place(Stacked(s), ROWS - 1 - |s[c]|, c, p) == Stacked(s[c := s[c] + [p]])
  {
    var g, t := Stacked(s), s[c := s[c] + [p]];
    assert g[ROWS - 1 - |s[c]|][c] == NoSeed;
    var h := Place(g, ROWS - 1 - |s[c]|, c, p);
    assert forall r :: 0 <= r < ROWS ==> h[r] == Stacked(t)[r];
  }

  /** The stacks after drop k hold the seeds of the drops after it on top. */
  lemma DroppedNext(s: Stacks, first: Seed, cols: seq<int>, k: nat, t: Stacks)
    requires first != NoSeed && k < |cols| && |s| == COLS && |t| == COLS && 0 <= cols[k] < COLS
    requires forall c :: 0 <= c < COLS ==> t[c] == s[c] + Dropped(first, cols, c, k)
    ensures forall c :: 0 <= c < COLS ==>
      t[c] == s[cols[k] := s[cols[k]] + [Mover(first, k)]][c] + Dropped(first, cols, c, k + 1)
  {
    forall c | 0 <= c < COLS
      ensures t[c] == s[cols[k] := s[cols[k]] + [Mover(first, k)]][c] + Dropped(first, cols, c, k + 1)
    {
      var m, d := Mover(first, k), Dropped(first, cols, c, k + 1);
      if c == cols[k] {
        assert Dropped(first, cols, c, k) == [m] + d;
        assert s[c] + ([m] + d) == (s[c] + [m]) + d;
      } else {
        assert Dropped(first, cols, c, k) == [] + d == d;
      }
    }
  }

  /**
   * Replaying drops k onwards on a stacked board puts onto every column the
   * seeds those drops drop into it, as long as no column overflows.
   */
  lemma {:induction false} ReplayDropped(s: Stacks, first: Seed, cols: seq<int>, k: nat, t: Stacks)
    requires IsStacks(s) && first != NoSeed && k <= |cols|
    requires forall i :: k <= i < |cols| ==> 0 <= cols[i] < COLS
    requires |t| == COLS && forall c :: 0 <= c < COLS ==> t[c] == s[c] + Dropped(first, cols, c, k) && |t[c]| <= ROWS
    ensures IsStacks(t)
    ensures Replay(Stacked(s), Mover(first, k), cols[k..]) == Some(Stacked(t))
    decreases |cols| - k
  {
    if k == |cols| {
      assert forall c :: 0 <= c < COLS ==> t[c] == s[c] + [] == s[c];
      assert t == s;
    } else {
      var c0, p := cols[k], Mover(first, k);
      var s' := s[c0 := s[c0] + [p]];
      assert Other(p) == Mover(first, k + 1) by {
        OtherTwice(first);
      }
      assert IsStacks(s') && Place(Stacked(s), LandingRow(Stacked(s), c0), c0, p) == Stacked(s') by {
        assert |s'[c0]| <= |t[c0]|;
        StackedDrop(s, c0, p);
      }
      DroppedNext(s, first, cols, k, t);
      ReplayDropped(s', first, cols, k + 1, t);
      assert Replay(Stacked(s), p, cols[k..]) == Replay(Stacked(s'), Other(p), cols[k + 1..]) by {
        assert cols[k..][0] == c0 && cols[k..][1..] == cols[k + 1..];
      }
    }
  }

  /** The empty board is the board of empty stacks. */
  lemma EmptyStacked()
    ensures IsStacks(seq(COLS, _ => [])) && EmptyGrid() == Stacked(seq(COLS, _ => []))
  {
    assert forall r :: 0 <= r < ROWS ==> EmptyGrid()[r] == Stacked(seq(COLS, _ => []))[r];
  }

  /**
   * Replaying drops from the empty board puts onto every column the seeds
   * dropped into it, as long as no column overflows.
   */
  lemma ReplayFromEmpty(first: Seed, cols: seq<int>, t: Stacks)
    requires first != NoSeed && forall i :: 0 <= i < |cols| ==> 0 <= cols[i] < COLS
    requires IsStacks(t) && forall c :: 0 <= c < COLS ==> t[c] == Dropped(first, cols, c, 0)
    ensures Replay(EmptyGrid(), first, cols) == Some(Stacked(t))
  {
    EmptyStacked();
    var s: Stacks := seq(COLS, _ => []);
    assert forall c :: 0 <= c < COLS ==> t[c] == s[c] + Dropped(first, cols, c, 0);
    ReplayDropped(s, first, cols, 0, t);
    assert cols[0..] == cols;
  }

  /** Drop k by the other player is drop k + 1 by this one. */
  lemma MoverOfOther(p: Seed, k: nat)
    requires p != NoSeed
    ensures Mover(Other(p), k) == Mover(p, k + 1)
  {
    OtherTwice(p);
    if k % 2 == 0 {
      assert (k + 1) % 2 == 1;
    } else {
      assert (k + 1) % 2 == 0;
    }
  }

  /** The last drop of a replay is made on the board the drops before it leave. */
  lemma {:induction false} ReplayLast(g: Grid, p: Seed, cols: seq<int>, u: Grid)
    requires IsGrid(g) && p != NoSeed && |cols| > 0
    requires Replay(g, p, cols[..|cols| - 1]) == Some(u)
    ensures IsGrid(u) && Replay(g, p, cols) == Replay(u, Mover(p, |cols| - 1), [cols[|cols| - 1]])
    decreases |cols|
  {
    if |cols| > 1 {
      var c := cols[0];
      assert Droppable(g, c) by {
        assert cols[..|cols| - 1][0] == c;
      }
      var h := Place(g, LandingRow(g, c), c, p);
      assert Replay(h, Other(p), cols[1..][..|cols[1..]| - 1]) == Some(u) by {
        assert cols[..|cols| - 1][0] == c;
        assert cols[..|cols| - 1][1..] == cols[1..][..|cols[1..]| - 1];
      }
      ReplayLast(h, Other(p), cols[1..], u);
      MoverOfOther(p, |cols| - 2);
      assert cols[1..][|cols[1..]| - 1] == cols[|cols| - 1];
    } else {
      assert cols == [cols[0]];
    }
  }

  // ---------------------------------------------------------------------------
  // A game stays in play while no drop before the last wins or fills the board
  // ---------------------------------------------------------------------------

  /** Every seed on g is on u, in the same cell. */
  predicate Below(g: Grid, u: Grid)
    requires IsGrid(g) && IsGrid(u)
  {
    forall r, c :: 0 <= r < ROWS && 0 <= c < COLS && g[r][c] != NoSeed ==> u[r][c] == g[r][c]
  }

  /** No seed on g wins, under the program's test, at its own cell. */
  predicate Quiet(g: Grid)
    requires IsGrid(g)
  {
    forall r, c :: 0 <= r < ROWS && 0 <= c < COLS && g[r][c] != NoSeed ==> !Win(g, g[r][c], r, c)
  }

  /** A win stays a win when more seeds are added to the board. */
  lemma WinGrows(g: Grid, u: Grid, p: Seed, r0: int, c0: int)
    requires IsGrid(g) && IsGrid(u) && Below(g, u) && p != NoSeed
    ensures Win(g, p, r0, c0) ==> Win(u, p, r0, c0)
  {
    if Win(g, p, r0, c0) {
      var i :| 0 <= i <= SCAN_STEPS - 4 && FourAt(Scans(g, p, r0, c0), i);
      assert FourAt(Scans(u, p, r0, c0), i);
    }
  }

  /** A replay only adds seeds to the board it starts from. */
  lemma {:induction false} ReplayGrows(g: Grid, p: Seed, cols: seq<int>)
    requires IsGrid(g) && p != NoSeed && Replay(g, p, cols).Some?
    ensures Below(g, Replay(g, p, cols).value)
    decreases |cols|
  {
    if |cols| > 0 {
      var h := Place(g, LandingRow(g, cols[0]), cols[0], p);
      ReplayGrows(h, Other(p), cols[1..]);
    }
  }

  /**
   * When the board before the last click holds no win and is not full, the
   * first of several clicks drops, neither wins nor fills the board, and the
   * clicks after it lead to the same board.
   */
  lemma QuietStep(g: Grid, p: Seed, cols: seq<int>, u: Grid)
    requires IsGrid(g) && p != NoSeed && |cols| > 1
    requires Replay(g, p, cols[..|cols| - 1]) == Some(u)
    requires Quiet(u) && !Full(u)
    ensures Droppable(g, cols[0])
    ensures var r := LandingRow(g, cols[0]); var h := Place(g, r, cols[0], p);
      !Win(h, p, r, cols[0]) && !Full(h) && Replay(h, Other(p), cols[1..][..|cols| - 2]) == Some(u)
  {
    var c := cols[0];
    assert Droppable(g, c) by {
      assert cols[..|cols| - 1][0] == c;
    }
    var r := LandingRow(g, c);
    var h := Place(g, r, c, p);
    assert Replay(h, Other(p), cols[1..][..|cols| - 2]) == Some(u) by {
      assert cols[..|cols| - 1][0] == c;
      assert cols[..|cols| - 1][1..] == cols[1..][..|cols| - 2];
    }
    ReplayGrows(h, Other(p), cols[1..][..|cols| - 2]);
    WinGrows(h, u, p, r, c);
    assert u[r][c] == p;
  }

  /**
   * When the board before the last click holds no win and is not full, no
   * earlier drop won or filled the board either, and the game reaches the
   * board its drops replay to.
   */
  lemma {:induction false} PlayQuiet(g: Grid, p: Seed, cols: seq<int>, u: Grid)
    requires IsGrid(g) && p != NoSeed && |cols| > 0
    requires Replay(g, p, cols[..|cols| - 1]) == Some(u)
    requires Quiet(u) && !Full(u)
    ensures Play(g, p, cols) == Replay(g, p, cols)
    decreases |cols|
  {
    if |cols| > 1 {
      QuietStep(g, p, cols, u);
      var h := Place(g, LandingRow(g, cols[0]), cols[0], p);
      PlayQuiet(h, Other(p), cols[1..], u);
    }
  }

  /** Some miss of a chain whose gaps are at most four lies in every window of four it spans. */
  lemma {:induction false} MissWithinFour(ms: seq<int>, i: int, j: nat)
    requires j < |ms| && ms[j] <= i + 3 && i <= ms[|ms| - 1]
    requires forall j' :: 0 <= j' < |ms| - 1 ==> ms[j'] < ms[j' + 1] <= ms[j'] + 4
    ensures exists j' :: 0 <= j' < |ms| && i <= ms[j'] <= i + 3
    decreases |ms| - j
  {
    if ms[j] < i {
      MissWithinFour(ms, i, j + 1);
    }
  }

  /**
   * Misses at most four apart, the first within the first four places and
   * the last within the last four, leave no run of four.
   */
  lemma MissesBreakRuns(bs: seq<bool>, ms: seq<int>)
    requires |ms| > 0 && ms[0] <= 3 && ms[|ms| - 1] >= |bs| - 4
    requires forall j :: 0 <= j < |ms| - 1 ==> ms[j] < ms[j + 1] <= ms[j] + 4
    requires forall j :: 0 <= j < |ms| ==> 0 <= ms[j] < |bs| && !bs[ms[j]]
    ensures !HasFour(bs)
  {
    if HasFour(bs) {
      var i :| 0 <= i <= |bs| - 4 && FourAt(bs, i);
      MissWithinFour(ms, i, 0);
    }
  }

  // ---------------------------------------------------------------------------
  // The two games
  // ---------------------------------------------------------------------------

  /** The clicks of the carry-over game, from a new game. */
  const CarryOverClicks: seq<int> := [6, 6, 0, 6, 6, 1, 6, 1, 6]

  /** The carry-over board before the last click. */
  const CarryOverBeforeLast: Grid := [
    [NoSeed, NoSeed, NoSeed, NoSeed, NoSeed, NoSeed, NoSeed],
    [NoSeed, NoSeed, NoSeed, NoSeed, NoSeed, NoSeed, Cross],
    [NoSeed, NoSeed, NoSeed, NoSeed, NoSeed, NoSeed, Cross],
    [NoSeed, NoSeed, NoSeed, NoSeed, NoSeed, NoSeed, Nought],
    [NoSeed, Nought, NoSeed, NoSeed, NoSeed, NoSeed, Nought],
    [Cross, Nought, NoSeed, NoSeed, NoSeed, NoSeed, Cross]
  ]

  /**
   * The carry-over game stays in play up to its last click, which leaves the
   * carry-over board.
   */
  lemma CarryOverReached()
    ensures Play(EmptyGrid(), Cross, CarryOverClicks) == Some(CarryOverBoard)
    ensures Replay(EmptyGrid(), Cross, CarryOverClicks) == Some(CarryOverBoard)
  {
    CarryOverReplayed();
    CarryOverBeforeLastReached();
    CarryOverBeforeLastQuiet();
    CarryOverBeforeLastOpen();
    PlayQuiet(EmptyGrid(), Cross, CarryOverClicks, CarryOverBeforeLast);
  }

  /** The nine drops of the carry-over game leave the carry-over board. */
  lemma CarryOverReplayed()
    ensures Replay(EmptyGrid(), Cross, CarryOverClicks) == Some(CarryOverBoard)
  {
    CarryOverBeforeLastReached();
    ReplayLast(EmptyGrid(), Cross, CarryOverClicks, CarryOverBeforeLast);
    assert Mover(Cross, |CarryOverClicks| - 1) == Cross && CarryOverClicks[|CarryOverClicks| - 1] == 6;
    CarryOverLastDrop();
  }

  /** The last click of the carry-over game drops the cross at (0, 6). */
  lemma CarryOverLastDrop()
    ensures Droppable(CarryOverBeforeLast, 6) && LandingRow(CarryOverBeforeLast, 6) == 0
    ensures Place(CarryOverBeforeLast, 0, 6, Cross) == CarryOverBoard
  {
    assert Matches(CarryOverBeforeLast, NoSeed, 0, 6);
    var h := Place(CarryOverBeforeLast, 0, 6, Cross);
    assert h[0] == CarryOverBoard[0] && h[1] == CarryOverBoard[1] && h[2] == CarryOverBoard[2];
    assert h[3] == CarryOverBoard[3] && h[4] == CarryOverBoard[4] && h[5] == CarryOverBoard[5];
  }

  /** All but the last drop of the carry-over game leave the board before the last click. */
  lemma CarryOverBeforeLastReached()
    ensures Replay(EmptyGrid(), Cross, CarryOverClicks[..|CarryOverClicks| - 1]) == Some(CarryOverBeforeLast)
  {
    assert CarryOverClicks[..|CarryOverClicks| - 1] == [6, 6, 0, 6, 6, 1, 6, 1];
    CarryOverBeforeLastDrops();
    CarryOverBeforeLastStacked();
    ReplayFromEmpty(Cross, [6, 6, 0, 6, 6, 1, 6, 1], [[Cross], [Nought, Nought], [], [], [], [], [Cross, Nought, Nought, Cross, Cross]]);
  }

  /** Where all but the last drop of the carry-over game land. */
  lemma CarryOverBeforeLastDrops()
    ensures forall c :: 0 <= c < COLS ==> [[Cross], [Nought, Nought], [], [], [], [], [Cross, Nought, Nought, Cross, Cross]][c] == Dropped(Cross, [6, 6, 0, 6, 6, 1, 6, 1], c, 0)
  {
    forall c | 0 <= c < COLS
      ensures [[Cross], [Nought, Nought], [], [], [], [], [Cross, Nought, Nought, Cross, Cross]][c] == Dropped(Cross, [6, 6, 0, 6, 6, 1, 6, 1], c, 0)
    {
      if c == 0 {
        assert Dropped(Cross, [6, 6, 0, 6, 6, 1, 6, 1], 0, 0) == [Cross];
      } else if c == 1 {
        assert Dropped(Cross, [6, 6, 0, 6, 6, 1, 6, 1], 1, 0) == [Nought, Nought];
      } else if c == 2 {
        assert Dropped(Cross, [6, 6, 0, 6, 6, 1, 6, 1], 2, 0) == [];
      } else if c == 3 {
        assert Dropped(Cross, [6, 6, 0, 6, 6, 1, 6, 1], 3, 0) == [];
      } else if c == 4 {
        assert Dropped(Cross, [6, 6, 0, 6, 6, 1, 6, 1], 4, 0) == [];
      } else if c == 5 {
        assert Dropped(Cross, [6, 6, 0, 6, 6, 1, 6, 1], 5, 0) == [];
      } else {
        assert Dropped(Cross, [6, 6, 0, 6, 6, 1, 6, 1], 6, 0) == [Cross, Nought, Nought, Cross, Cross];
      }
    }
  }

  /** The stacks before the last click of the carry-over game make up that board. */
  lemma CarryOverBeforeLastStacked()
    ensures IsStacks([[Cross], [Nought, Nought], [], [], [], [], [Cross, Nought, Nought, Cross, Cross]])
    ensures Stacked([[Cross], [Nought, Nought], [], [], [], [], [Cross, Nought, Nought, Cross, Cross]]) == CarryOverBeforeLast
  {
    var b := Stacked([[Cross], [Nought, Nought], [], [], [], [], [Cross, Nought, Nought, Cross, Cross]]);
    assert b[0] == CarryOverBeforeLast[0] && b[1] == CarryOverBeforeLast[1] && b[2] == CarryOverBeforeLast[2];
    assert b[3] == CarryOverBeforeLast[3] && b[4] == CarryOverBeforeLast[4] && b[5] == CarryOverBeforeLast[5];
  }

  /** No seed at (1, 6), (2, 6), (3, 6), (4, 1) wins on the carry-over board before the last click. */
  lemma CarryOverBeforeLastQuiet1()
    ensures !Win(CarryOverBeforeLast, Cross, 1, 6)
    ensures !Win(CarryOverBeforeLast, Cross, 2, 6)
    ensures !Win(CarryOverBeforeLast, Nought, 3, 6)
    ensures !Win(CarryOverBeforeLast, Nought, 4, 1)
  {
    MissesBreakRuns(Scans(CarryOverBeforeLast, Cross, 1, 6), [3, 7, 11, 15, 19, 23]);
    MissesBreakRuns(Scans(CarryOverBeforeLast, Cross, 2, 6), [3, 7, 11, 14, 18, 22]);
    MissesBreakRuns(Scans(CarryOverBeforeLast, Nought, 3, 6), [3, 7, 9, 13, 17, 21]);
    MissesBreakRuns(Scans(CarryOverBeforeLast, Nought, 4, 1), [3, 7, 10, 14, 18, 21]);
  }

  /** No seed at (4, 6), (5, 0), (5, 1), (5, 6) wins on the carry-over board before the last click. */
  lemma CarryOverBeforeLastQuiet2()
    ensures !Win(CarryOverBeforeLast, Nought, 4, 6)
    ensures !Win(CarryOverBeforeLast, Cross, 5, 0)
    ensures !Win(CarryOverBeforeLast, Nought, 5, 1)
    ensures !Win(CarryOverBeforeLast, Cross, 5, 6)
  {
    MissesBreakRuns(Scans(CarryOverBeforeLast, Nought, 4, 6), [3, 7, 9, 13, 16, 20, 24]);
    MissesBreakRuns(Scans(CarryOverBeforeLast, Cross, 5, 0), [3, 7, 11, 15, 19, 23]);
    MissesBreakRuns(Scans(CarryOverBeforeLast, Nought, 5, 1), [3, 7, 10, 14, 17, 21]);
    MissesBreakRuns(Scans(CarryOverBeforeLast, Cross, 5, 6), [3, 7, 11, 15, 19, 23]);
  }

  /** No seed on the carry-over board before the last click wins at its cell. */
  lemma CarryOverBeforeLastQuiet()
    ensures Quiet(CarryOverBeforeLast)
  {
    CarryOverBeforeLastQuiet1(); CarryOverBeforeLastQuiet2();
    forall r, c | 0 <= r < ROWS && 0 <= c < COLS && CarryOverBeforeLast[r][c] != NoSeed
      ensures !Win(CarryOverBeforeLast, CarryOverBeforeLast[r][c], r, c)
    {
      assert r == 1 || r == 2 || r == 3 || r == 4 || r == 5;
    }
  }

  /** The carry-over board before the last click is not full. */
  lemma CarryOverBeforeLastOpen()
    ensures !Full(CarryOverBeforeLast)
  {
    assert CarryOverBeforeLast[0][0] == NoSeed;
  }

  /** The clicks of the mirrored-diagonal game, from a new game. */
  const MirroredDiagonalClicks: seq<int> := [1, 0, 0, 0, 0, 1, 1, 2, 2, 6, 3]

  /** The mirrored-diagonal board before the last click. */
  const MirroredDiagonalBeforeLast: Grid := [
    [NoSeed, NoSeed, NoSeed, NoSeed, NoSeed, NoSeed, NoSeed],
    [NoSeed, NoSeed, NoSeed, NoSeed, NoSeed, NoSeed, NoSeed],
    [Cross, NoSeed, NoSeed, NoSeed, NoSeed, NoSeed, NoSeed],
    [Nought, Cross, NoSeed, NoSeed, NoSeed, NoSeed, NoSeed],
    [Cross, Nought, Cross, NoSeed, NoSeed, NoSeed, NoSeed],
    [Nought, Cross, Nought, NoSeed, NoSeed, NoSeed, Nought]
  ]

  /**
   * The mirrored-diagonal game stays in play up to its last click, which leaves the
   * mirrored-diagonal board.
   */
  lemma MirroredDiagonalReached()
    ensures Play(EmptyGrid(), Cross, MirroredDiagonalClicks) == Some(MirroredDiagonalBoard)
    ensures Replay(EmptyGrid(), Cross, MirroredDiagonalClicks) == Some(MirroredDiagonalBoard)
  {
    MirroredDiagonalReplayed();
    MirroredDiagonalBeforeLastReached();
    MirroredDiagonalBeforeLastQuiet();
    MirroredDiagonalBeforeLastOpen();
    PlayQuiet(EmptyGrid(), Cross, MirroredDiagonalClicks, MirroredDiagonalBeforeLast);
  }

  /** The eleven drops of the mirrored-diagonal game leave the mirrored-diagonal board. */
  lemma MirroredDiagonalReplayed()
    ensures Replay(EmptyGrid(), Cross, MirroredDiagonalClicks) == Some(MirroredDiagonalBoard)
  {
    MirroredDiagonalBeforeLastReached();
    ReplayLast(EmptyGrid(), Cross, MirroredDiagonalClicks, MirroredDiagonalBeforeLast);
    assert Mover(Cross, |MirroredDiagonalClicks| - 1) == Cross && MirroredDiagonalClicks[|MirroredDiagonalClicks| - 1] == 3;
    MirroredDiagonalLastDrop();
  }

  /** The last click of the mirrored-diagonal game drops the cross at (5, 3). */
  lemma MirroredDiagonalLastDrop()
    ensures Droppable(MirroredDiagonalBeforeLast, 3) && LandingRow(MirroredDiagonalBeforeLast, 3) == 5
    ensures Place(MirroredDiagonalBeforeLast, 5, 3, Cross) == MirroredDiagonalBoard
  {
    assert Matches(MirroredDiagonalBeforeLast, NoSeed, 5, 3);
    var h := Place(MirroredDiagonalBeforeLast, 5, 3, Cross);
    assert h[0] == MirroredDiagonalBoard[0] && h[1] == MirroredDiagonalBoard[1] && h[2] == MirroredDiagonalBoard[2];
    assert h[3] == MirroredDiagonalBoard[3] && h[4] == MirroredDiagonalBoard[4] && h[5] == MirroredDiagonalBoard[5];
  }

  /** All but the last drop of the mirrored-diagonal game leave the board before the last click. */
  lemma MirroredDiagonalBeforeLastReached()
    ensures Replay(EmptyGrid(), Cross, MirroredDiagonalClicks[..|MirroredDiagonalClicks| - 1]) == Some(MirroredDiagonalBeforeLast)
  {
    assert MirroredDiagonalClicks[..|MirroredDiagonalClicks| - 1] == [1, 0, 0, 0, 0, 1, 1, 2, 2, 6];
    MirroredDiagonalBeforeLastDrops();
    MirroredDiagonalBeforeLastStacked();
    ReplayFromEmpty(Cross, [1, 0, 0, 0, 0, 1, 1, 2, 2, 6], [[Nought, Cross, Nought, Cross], [Cross, Nought, Cross], [Nought, Cross], [], [], [], [Nought]]);
  }

  /** Where all but the last drop of the mirrored-diagonal game land. */
  lemma MirroredDiagonalBeforeLastDrops()
    ensures forall c :: 0 <= c < COLS ==> [[Nought, Cross, Nought, Cross], [Cross, Nought, Cross], [Nought, Cross], [], [], [], [Nought]][c] == Dropped(Cross, [1, 0, 0, 0, 0, 1, 1, 2, 2, 6], c, 0)
  {
    forall c | 0 <= c < COLS
      ensures [[Nought, Cross, Nought, Cross], [Cross, Nought, Cross], [Nought, Cross], [], [], [], [Nought]][c] == Dropped(Cross, [1, 0, 0, 0, 0, 1, 1, 2, 2, 6], c, 0)
    {
      if c == 0 {
        assert Dropped(Cross, [1, 0, 0, 0, 0, 1, 1, 2, 2, 6], 0, 0) == [Nought, Cross, Nought, Cross];
      } else if c == 1 {
        assert Dropped(Cross, [1, 0, 0, 0, 0, 1, 1, 2, 2, 6], 1, 0) == [Cross, Nought, Cross];
      } else if c == 2 {
        assert Dropped(Cross, [1, 0, 0, 0, 0, 1, 1, 2, 2, 6], 2, 0) == [Nought, Cross];
      } else if c == 3 {
        assert Dropped(Cross, [1, 0, 0, 0, 0, 1, 1, 2, 2, 6], 3, 0) == [];
      } else if c == 4 {
        assert Dropped(Cross, [1, 0, 0, 0, 0, 1, 1, 2, 2, 6], 4, 0) == [];
      } else if c == 5 {
        assert Dropped(Cross, [1, 0, 0, 0, 0, 1, 1, 2, 2, 6], 5, 0) == [];
      } else {
        assert Dropped(Cross, [1, 0, 0, 0, 0, 1, 1, 2, 2, 6], 6, 0) == [Nought];
      }
    }
  }

  /** The stacks before the last click of the mirrored-diagonal game make up that board. */
  lemma MirroredDiagonalBeforeLastStacked()
    ensures IsStacks([[Nought, Cross, Nought, Cross], [Cross, Nought, Cross], [Nought, Cross], [], [], [], [Nought]])
    ensures Stacked([[Nought, Cross, Nought, Cross], [Cross, Nought, Cross], [Nought, Cross], [], [], [], [Nought]]) == MirroredDiagonalBeforeLast
  {
    var b := Stacked([[Nought, Cross, Nought, Cross], [Cross, Nought, Cross], [Nought, Cross], [], [], [], [Nought]]);
    assert b[0] == MirroredDiagonalBeforeLast[0] && b[1] == MirroredDiagonalBeforeLast[1] && b[2] == MirroredDiagonalBeforeLast[2];
    assert b[3] == MirroredDiagonalBeforeLast[3] && b[4] == MirroredDiagonalBeforeLast[4] && b[5] == MirroredDiagonalBeforeLast[5];
  }

  /** No seed at (2, 0), (3, 0) wins on the mirrored-diagonal board before the last click. */
  lemma MirroredDiagonalBeforeLastQuiet1()
    ensures !Win(MirroredDiagonalBeforeLast, Cross, 2, 0)
    ensures !Win(MirroredDiagonalBeforeLast, Nought, 3, 0)
  {
    MissesBreakRuns(Scans(MirroredDiagonalBeforeLast, Cross, 2, 0), [3, 7, 10, 14, 18, 22]);
    MissesBreakRuns(Scans(MirroredDiagonalBeforeLast, Nought, 3, 0), [3, 7, 11, 15, 19, 23]);
  }

  /** No seed at (3, 1), (4, 0) wins on the mirrored-diagonal board before the last click. */
  lemma MirroredDiagonalBeforeLastQuiet2()
    ensures !Win(MirroredDiagonalBeforeLast, Cross, 3, 1)
    ensures !Win(MirroredDiagonalBeforeLast, Cross, 4, 0)
  {
    MissesBreakRuns(Scans(MirroredDiagonalBeforeLast, Cross, 3, 1), [3, 7, 11, 15, 19, 23]);
    MissesBreakRuns(Scans(MirroredDiagonalBeforeLast, Cross, 4, 0), [3, 7, 10, 14, 18, 22]);
  }

  /** No seed at (4, 1), (4, 2) wins on the mirrored-diagonal board before the last click. */
  lemma MirroredDiagonalBeforeLastQuiet3()
    ensures !Win(MirroredDiagonalBeforeLast, Nought, 4, 1)
    ensures !Win(MirroredDiagonalBeforeLast, Cross, 4, 2)
  {
    MissesBreakRuns(Scans(MirroredDiagonalBeforeLast, Nought, 4, 1), [3, 7, 10, 14, 16, 20, 24]);
    MissesBreakRuns(Scans(MirroredDiagonalBeforeLast, Cross, 4, 2), [3, 7, 10, 14, 16, 20, 24]);
  }

  /** No seed at (5, 0), (5, 1) wins on the mirrored-diagonal board before the last click. */
  lemma MirroredDiagonalBeforeLastQuiet4()
    ensures !Win(MirroredDiagonalBeforeLast, Nought, 5, 0)
    ensures !Win(MirroredDiagonalBeforeLast, Cross, 5, 1)
  {
    MissesBreakRuns(Scans(MirroredDiagonalBeforeLast, Nought, 5, 0), [3, 7, 11, 15, 19, 23]);
    MissesBreakRuns(Scans(MirroredDiagonalBeforeLast, Cross, 5, 1), [3, 7, 11, 15, 19, 23]);
  }

  /** No seed at (5, 2), (5, 6) wins on the mirrored-diagonal board before the last click. */
  lemma MirroredDiagonalBeforeLastQuiet5()
    ensures !Win(MirroredDiagonalBeforeLast, Nought, 5, 2)
    ensures !Win(MirroredDiagonalBeforeLast, Nought, 5, 6)
  {
    MissesBreakRuns(Scans(MirroredDiagonalBeforeLast, Nought, 5, 2), [3, 7, 11, 15, 19, 23]);
    MissesBreakRuns(Scans(MirroredDiagonalBeforeLast, Nought, 5, 6), [3, 7, 11, 15, 19, 23]);
  }

  /** No seed on the mirrored-diagonal board before the last click wins at its cell. */
  lemma MirroredDiagonalBeforeLastQuiet()
    ensures Quiet(MirroredDiagonalBeforeLast)
  {
    MirroredDiagonalBeforeLastQuiet1(); MirroredDiagonalBeforeLastQuiet2(); MirroredDiagonalBeforeLastQuiet3(); MirroredDiagonalBeforeLastQuiet4(); MirroredDiagonalBeforeLastQuiet5();
    forall r, c | 0 <= r < ROWS && 0 <= c < COLS && MirroredDiagonalBeforeLast[r][c] != NoSeed
      ensures !Win(MirroredDiagonalBeforeLast, MirroredDiagonalBeforeLast[r][c], r, c)
    {
      assert r == 2 || r == 3 || r == 4 || r == 5;
    }
  }

  /** The mirrored-diagonal board before the last click is not full. */
  lemma MirroredDiagonalBeforeLastOpen()
    ensures !Full(MirroredDiagonalBeforeLast)
  {
    assert MirroredDiagonalBeforeLast[0][0] == NoSeed;
  }

  /**
   * The counter carried from the row into the column reports a win for the
   * move at (0, 6) although no line through that cell holds four crosses.
   */
  lemma CarryOverSpuriousWin()
    ensures Win(CarryOverBoard, Cross, 0, 6)
    ensures !LineWin(CarryOverBoard, Cross, 0, 6)
    ensures !FourThrough(CarryOverBoard, Cross, 0, 6)
  {
    var g := CarryOverBoard;
    // Each line through (0, 6) misses at its fourth cell: (0, 3), (3, 6), (3, 3) and off the board.
    MissesBreakRuns(RowScan(g, Cross, 0), [3]);
    MissesBreakRuns(ColumnScan(g, Cross, 6), [3]);
    MissesBreakRuns(AntiDiagonalScan(g, Cross, 0, 6), [3]);
    MissesBreakRuns(DiagonalScan(g, Cross, 0, 6), [3]);
    CarryOverCounter();
    LineWinCorrect(g, Cross, 0, 6);
  }

  /**
   * The row scan ends on the played cell with the counter at one, and the
   * column scan counts that cell again and reaches four at its third cell.
   */
  lemma CarryOverCounter()
    ensures CounterAfter(CarryOverBoard, Cross, 0, 6, COLS) == 1
    ensures CounterAfter(CarryOverBoard, Cross, 0, 6, COLS + 3) == 4
    ensures Win(CarryOverBoard, Cross, 0, 6)
  {
    var g := CarryOverBoard;
    assert CounterAfter(g, Cross, 0, 6, 1) == 0;
    assert CounterAfter(g, Cross, 0, 6, 2) == 0;
    assert CounterAfter(g, Cross, 0, 6, 3) == 0;
    assert CounterAfter(g, Cross, 0, 6, 4) == 0;
    assert CounterAfter(g, Cross, 0, 6, 5) == 0;
    assert CounterAfter(g, Cross, 0, 6, 6) == 0;
    assert CounterAfter(g, Cross, 0, 6, 7) == 1;
    assert CounterAfter(g, Cross, 0, 6, 8) == 2;
    assert CounterAfter(g, Cross, 0, 6, 9) == 3;
    assert CounterAfter(g, Cross, 0, 6, 10) == 4;
    CounterAfterWins(g, Cross, 0, 6, 10);
  }

  /**
   * The diagonal scan as written misses the four crosses on the diagonal
   * through the move at (5, 3).
   */
  lemma MirroredDiagonalMissed()
    ensures FourThrough(MirroredDiagonalBoard, Cross, 5, 3)
    ensures LineWin(MirroredDiagonalBoard, Cross, 5, 3)
    ensures !Win(MirroredDiagonalBoard, Cross, 5, 3)
  {
    var g := MirroredDiagonalBoard;
    MissesBreakRuns(Scans(g, Cross, 5, 3), [2, 6, 10, 14, 17, 21]);
    assert FourFrom(g, Cross, Diagonal, 2, 0);
    assert OnLine(Diagonal, 5, 3, 2, 0);
    LineWinCorrect(g, Cross, 5, 3);
  }
}
