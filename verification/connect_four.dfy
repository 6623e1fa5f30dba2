/**
 * The Connect Four engine: a board of ROWS x COLS cells, the player to move
 * and the phase of the game, updated in place by a click on a column.
 */
module ConnectFourEngine {
  import opened Seeds
  import opened GameState
  import opened ConnectFourRules

  class ConnectFour {
    /** The board's cells, cells[row, col]; row 0 is the top. */
    var cells: array2<Seed>
    ghost var board: Grid
    var currentState: State
    var currentPlayer: Seed

    predicate Shaped()
      reads this
    {
      cells.Length0 == ROWS && cells.Length1 == COLS
    }

    /** The board as a value: `board` and `cells` hold the same seeds. */
    ghost predicate Tied()
      reads this, cells
    {
      Shaped() && IsGrid(board) &&
      forall r, c :: 0 <= r < ROWS && 0 <= c < COLS ==> board[r][c] == cells[r, c]
    }

    /** Whether (r, c) lies on the board and holds `seed`: the test each scan step makes. */
    function Holds(seed: Seed, r: int, c: int): (b: bool)
      reads this, cells
      requires Tied()
      ensures b == Matches(board, seed, r, c)
    {
      0 <= r < ROWS && 0 <= c < COLS && cells[r, c] == seed
    }

    /** The object invariant: a mover is always on turn and every column obeys gravity. */
    ghost predicate Valid()
      reads this, cells
    {
      Tied() && currentPlayer != NoSeed && Settled(board)
    }

    /** Builds the board and starts the first game. */
    constructor ()
      ensures Valid() && fresh(cells)
      ensures board == EmptyGrid() && currentPlayer == Cross && currentState == Playing
    {
      cells := new Seed[ROWS, COLS];
      currentState := Playing;
      currentPlayer := Cross;
      new;
      NewGame();
    }

    /** Clears every cell, gives the first move to the cross and resumes play. */
    method NewGame()
      requires Shaped()
      modifies this, cells
      ensures Valid() && cells == old(cells)
      ensures board == EmptyGrid() && currentPlayer == Cross && currentState == Playing
    {
      for row := 0 to ROWS
        invariant cells == old(cells)
        invariant forall r, c :: 0 <= r < row && 0 <= c < COLS ==> cells[r, c] == NoSeed
      {
        for col := 0 to COLS
          invariant cells == old(cells)
          invariant forall r, c :: 0 <= r < row && 0 <= c < COLS ==> cells[r, c] == NoSeed
          invariant forall c :: 0 <= c < col ==> cells[row, c] == NoSeed
        {
          cells[row, col] := NoSeed;
        }
      }
      currentPlayer := Cross;
      currentState := Playing;
      board := EmptyGrid();
      EmptySettled(board);
    }

    /**
     * The win test for a seed just placed at (rowSelected, colSelected): one
     * running counter over the row, column, anti-diagonal and diagonal scans,
     * never reset between them, with an early success when it reaches four.
     */
    method HasWon(theSeed: Seed, rowSelected: int, colSelected: int) returns (won: bool)
      requires Tied()
      requires 0 <= rowSelected < ROWS && 0 <= colSelected < COLS
      ensures won == Win(board, theSeed, rowSelected, colSelected)
    {
      var count := RowPass(theSeed, rowSelected, colSelected);
      if count == 4 {
        CounterAfterWins(board, theSeed, rowSelected, colSelected, COLS);
        return true;
      }
      count := ColumnPass(theSeed, rowSelected, colSelected, count);
      if count == 4 {
        CounterAfterWins(board, theSeed, rowSelected, colSelected, COLS + ROWS);
        return true;
      }
      count := AntiDiagonalPass(theSeed, rowSelected, colSelected, count);
      if count == 4 {
        CounterAfterWins(board, theSeed, rowSelected, colSelected, COLS + 2 * ROWS);
        return true;
      }
      count := DiagonalPass(theSeed, rowSelected, colSelected, count);
      CounterAfterAll(board, theSeed, rowSelected, colSelected);
      return count == 4;
    }

    /** The row scan, left to right, starting the counter. */
    method RowPass(theSeed: Seed, rowSelected: int, colSelected: int) returns (count: nat)
      requires Tied() && 0 <= rowSelected < ROWS && 0 <= colSelected < COLS
      ensures count == CounterAfter(board, theSeed, rowSelected, colSelected, COLS)
    {
      count := 0;
      for col := 0 to COLS
        invariant count == CounterAfter(board, theSeed, rowSelected, colSelected, col) && count < 4
      {
        var hit := Holds(theSeed, rowSelected, col);
        CounterAfterNext(board, theSeed, rowSelected, colSelected, col, rowSelected, col);
        if hit {
          count := count + 1;
          if count == 4 {
            CounterAfterSticks(board, theSeed, rowSelected, colSelected, col + 1, COLS);
            return;
          }
        } else {
          count := 0;
        }
      }
    }

    /** The column scan, top to bottom, continuing the counter. */
    method ColumnPass(theSeed: Seed, rowSelected: int, colSelected: int, start: nat) returns (count: nat)
      requires Tied() && 0 <= rowSelected < ROWS && 0 <= colSelected < COLS
      requires start == CounterAfter(board, theSeed, rowSelected, colSelected, COLS) && start < 4
      ensures count == CounterAfter(board, theSeed, rowSelected, colSelected, COLS + ROWS)
    {
      count := start;
      for row := 0 to ROWS
        invariant count == CounterAfter(board, theSeed, rowSelected, colSelected, COLS + row) && count < 4
      {
        var hit := Holds(theSeed, row, colSelected);
        CounterAfterNext(board, theSeed, rowSelected, colSelected, COLS + row, row, colSelected);
        if hit {
          count := count + 1;
          if count == 4 {
            CounterAfterSticks(board, theSeed, rowSelected, colSelected, COLS + row + 1, COLS + ROWS);
            return;
          }
        } else {
          count := 0;
        }
      }
    }

    /** The anti-diagonal scan, top to bottom, skipping columns off the board. */
    method AntiDiagonalPass(theSeed: Seed, rowSelected: int, colSelected: int, start: nat) returns (count: nat)
      requires Tied() && 0 <= rowSelected < ROWS && 0 <= colSelected < COLS
      requires start == CounterAfter(board, theSeed, rowSelected, colSelected, COLS + ROWS) && start < 4
      ensures count == CounterAfter(board, theSeed, rowSelected, colSelected, COLS + 2 * ROWS)
    {
      count := start;
      for row := 0 to ROWS
        invariant count == CounterAfter(board, theSeed, rowSelected, colSelected, COLS + ROWS + row) && count < 4
      {
        var col := rowSelected + colSelected - row;
        var hit := Holds(theSeed, row, col);
        CounterAfterNext(board, theSeed, rowSelected, colSelected, COLS + ROWS + row, row, col);
        if hit {
          count := count + 1;
          if count == 4 {
            CounterAfterSticks(board, theSeed, rowSelected, colSelected, COLS + ROWS + row + 1, COLS + 2 * ROWS);
            return;
          }
        } else {
          count := 0;
        }
      }
    }

    /** The fourth scan, top to bottom at column rowSelected - colSelected + row as written. */
    method DiagonalPass(theSeed: Seed, rowSelected: int, colSelected: int, start: nat) returns (count: nat)
      requires Tied() && 0 <= rowSelected < ROWS && 0 <= colSelected < COLS
      requires start == CounterAfter(board, theSeed, rowSelected, colSelected, COLS + 2 * ROWS) && start < 4
      ensures count == CounterAfter(board, theSeed, rowSelected, colSelected, SCAN_STEPS)
    {
      count := start;
      for row := 0 to ROWS
        invariant count == CounterAfter(board, theSeed, rowSelected, colSelected, COLS + 2 * ROWS + row) && count < 4
      {
        var col := rowSelected - colSelected + row;
        var hit := Holds(theSeed, row, col);
        CounterAfterNext(board, theSeed, rowSelected, colSelected, COLS + 2 * ROWS + row, row, col);
        if hit {
          count := count + 1;
          if count == 4 {
            CounterAfterSticks(board, theSeed, rowSelected, colSelected, COLS + 2 * ROWS + row + 1, SCAN_STEPS);
            return;
          }
        } else {
          count := 0;
        }
      }
    }

    /**
     * The win test as evidently intended: each of the four lines through
     * (rowSelected, colSelected) is scanned with its own counter, and the
     * fourth scan follows the diagonal through the played cell.
     */
    method HasWonPerLine(theSeed: Seed, rowSelected: int, colSelected: int) returns (won: bool)
      requires Tied()
      requires 0 <= rowSelected < ROWS && 0 <= colSelected < COLS
      ensures won == LineWin(board, theSeed, rowSelected, colSelected)
    {
      won := LinePass(theSeed, rowSelected, colSelected, Horizontal);
      if won {
        return;
      }
      won := LinePass(theSeed, rowSelected, colSelected, Vertical);
      if won {
        return;
      }
      won := LinePass(theSeed, rowSelected, colSelected, AntiDiagonal);
      if won {
        return;
      }
      won := LinePass(theSeed, rowSelected, colSelected, Diagonal);
    }

    /** One line scanned with a fresh counter: it finds four in a row exactly when the line holds them. */
    method LinePass(theSeed: Seed, r0: int, c0: int, d: Direction) returns (found: bool)
      requires Tied()
      ensures found == HasFour(LineScan(board, theSeed, r0, c0, d))
    {
      ghost var scan := LineScan(board, theSeed, r0, c0, d);
      var count := 0;
      for i := 0 to if d == Horizontal then COLS else ROWS
        invariant count == Counter(scan[..i]) && count < 4
      {
        var cell := LineCell(r0, c0, d, i);
        var hit := Holds(theSeed, cell.0, cell.1);
        CounterAdvance(scan, i);
        if hit {
          count := count + 1;
          if count == 4 {
            return true;
          }
        } else {
          count := 0;
        }
      }
      assert scan[..|scan|] == scan;
      CounterFindsFour(scan);
      return false;
    }

    /** The game is drawn when no cell is empty; the board is only read. */
    method IsDraw() returns (draw: bool)
      requires Tied()
      ensures draw == Full(board)
    {
      for row := 0 to ROWS
        invariant forall r, c :: 0 <= r < row && 0 <= c < COLS ==> cells[r, c] != NoSeed
      {
        for col := 0 to COLS
          invariant forall c :: 0 <= c < col ==> cells[row, c] != NoSeed
        {
          if cells[row, col] == NoSeed {
            return false;
          }
        }
      }
      return true;
    }

    /**
     * A click on column `col`. While playing, the mover's seed drops to the
     * lowest empty cell of the column; then the game is won, drawn, or the
     * turn passes. A click off the board or on a full column does nothing.
     * Once the game is over, any click starts a new game.
     */
    method ClickColumn(col: int)
      requires Valid()
      modifies this, cells
      ensures Valid() && cells == old(cells)
      ensures old(currentState) != Playing ==>
        board == EmptyGrid() && currentPlayer == Cross && currentState == Playing
      ensures old(currentState) == Playing && !Droppable(old(board), col) ==>
        board == old(board) && currentPlayer == old(currentPlayer) && currentState == Playing
      ensures old(currentState) == Playing && Droppable(old(board), col) ==>
        var mover, row := old(currentPlayer), LandingRow(old(board), col);
        board == Place(old(board), row, col, mover) &&
        if Win(board, mover, row, col) then
          currentState == WonBy(mover) && currentPlayer == mover
        else if Full(board) then
          currentState == Draw && currentPlayer == mover
        else
          currentState == Playing && currentPlayer == Other(mover)
    {
      if currentState == Playing {
        if 0 <= col < COLS {
          var rowI := ROWS - 1;
          while rowI >= 0
            invariant -1 <= rowI < ROWS
            invariant forall r :: rowI < r < ROWS ==> board[r][col] != NoSeed
            invariant Valid() && cells == old(cells) && board == old(board)
            invariant currentPlayer == old(currentPlayer) && currentState == Playing
          {
            if cells[rowI, col] == NoSeed {
              assert Matches(board, NoSeed, rowI, col);
              assert rowI == LandingRow(board, col);
              DropKeepsSettled(board, col, currentPlayer);
              cells[rowI, col] := currentPlayer;
              board := Place(board, rowI, col, currentPlayer);
              var won := HasWon(currentPlayer, rowI, col);
              if won {
                currentState := WonBy(currentPlayer);
              } else {
                var draw := IsDraw();
                if draw {
                  currentState := Draw;
                } else {
                  currentPlayer := Other(currentPlayer);
                }
              }
              break;
            }
            rowI := rowI - 1;
          }
        }
      } else {
        NewGame();
      }
    }
  }
}
