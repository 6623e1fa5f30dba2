/**
 * The Tic-Tac-Toe engine: a 3 x 3 board, the player to move and the phase of
 * the game, updated in place by a click on a cell.
 */
module TicTacToe {
  import opened Seeds
  import opened GameState

  const ROWS := 3
  const COLS := 3

  /** The eight winning lines of the board. */
  datatype Line = Row(r: int) | Column(c: int) | MainDiagonal | AntiDiagonal

  /** Line l exists on the board and passes through (r, c). */
  predicate Through(l: Line, r: int, c: int) {
    0 <= r < ROWS && 0 <= c < COLS &&
    match l
    case Row(i) => i == r
    case Column(j) => j == c
    case MainDiagonal => r == c
    case AntiDiagonal => r + c == ROWS - 1
  }

  /** The k-th cell of line l, from the top row or the left column. */
  function LineCell(l: Line, k: int): (int, int) {
    match l
    case Row(i) => (i, k)
    case Column(j) => (k, j)
    case MainDiagonal => (k, k)
    case AntiDiagonal => (k, COLS - 1 - k)
  }

  class TicTacToeGame {
    var currentState: State
    var currentPlayer: Seed
    /** The board's cells, board[row, col]; row 0 is the top. */
    var board: array2<Seed>

    predicate Shaped()
      reads this
    {
      board.Length0 == ROWS && board.Length1 == COLS
    }

    /** The object invariant: the board is 3 x 3 and a player is always on turn. */
    ghost predicate Valid()
      reads this
    {
      Shaped() && currentPlayer != NoSeed
    }

    /** Every cell of line l holds p. */
    predicate Held(l: Line, p: Seed)
      reads this, board
      requires Shaped()
    {
      (l.Row? ==> 0 <= l.r < ROWS) && (l.Column? ==> 0 <= l.c < COLS) &&
      forall k :: 0 <= k < ROWS ==> board[LineCell(l, k).0, LineCell(l, k).1] == p
    }

    /** No cell is empty. */
    predicate Full()
      reads this, board
      requires Shaped()
    {
      forall r, c :: 0 <= r < ROWS && 0 <= c < COLS ==> board[r, c] != NoSeed
    }

    /** Every cell is empty. */
    predicate Cleared()
      reads this, board
      requires Shaped()
    {
      forall r, c :: 0 <= r < ROWS && 0 <= c < COLS ==> board[r, c] == NoSeed
    }

    /** Builds the board and starts the first game. */
    constructor ()
      ensures Valid() && fresh(board) && Cleared()
      ensures currentPlayer == Cross && currentState == Playing
    {
      board := new Seed[ROWS, COLS];
      currentState := Playing;
      currentPlayer := Cross;
      new;
      InitGame();
      NewGame();
    }

    /** Allocates a new, not yet cleared board. */
    method InitGame()
      modifies this
      ensures Shaped() && fresh(board)
      ensures currentState == old(currentState) && currentPlayer == old(currentPlayer)
    {
      board := new Seed[ROWS, COLS];
    }

    /** Clears every cell, gives the first move to the cross and resumes play. */
    method NewGame()
      requires Shaped()
      modifies this, board
      ensures Valid() && board == old(board) && Cleared()
      ensures currentPlayer == Cross && currentState == Playing
    {
      for row := 0 to ROWS
        invariant board == old(board)
        invariant forall r, c :: 0 <= r < row && 0 <= c < COLS ==> board[r, c] == NoSeed
      {
        for col := 0 to COLS
          invariant board == old(board)
          invariant forall r, c :: 0 <= r < row && 0 <= c < COLS ==> board[r, c] == NoSeed
          invariant forall c :: 0 <= c < col ==> board[row, c] == NoSeed
        {
          board[row, col] := NoSeed;
        }
      }
      currentPlayer := Cross;
      currentState := Playing;
    }

    /**
     * Whether `player` holds the row or the column of the selected cell, the
     * main diagonal when the cell is on it, or the anti-diagonal when the
     * cell is on that one.
     */
    predicate CheckWin(player: Seed, selectedRow: int, selectedCol: int)
      reads this, board
      requires Shaped() && 0 <= selectedRow < ROWS && 0 <= selectedCol < COLS
    {
      (board[selectedRow, 0] == player && board[selectedRow, 1] == player && board[selectedRow, 2] == player) ||
      (board[0, selectedCol] == player && board[1, selectedCol] == player && board[2, selectedCol] == player) ||
      (selectedRow == selectedCol && board[0, 0] == player && board[1, 1] == player && board[2, 2] == player) ||
      (selectedRow + selectedCol == 2 && board[0, 2] == player && board[1, 1] == player && board[2, 0] == player)
    }

    /** The win test holds exactly when some winning line through the selected cell is all `player`. */
    lemma CheckWinExact(player: Seed, selectedRow: int, selectedCol: int)
      requires Shaped() && 0 <= selectedRow < ROWS && 0 <= selectedCol < COLS
      ensures CheckWin(player, selectedRow, selectedCol) <==>
        exists l :: Through(l, selectedRow, selectedCol) && Held(l, player)
    {
      if CheckWin(player, selectedRow, selectedCol) {
        CheckWinFindsLine(player, selectedRow, selectedCol);
      }
      if exists l :: Through(l, selectedRow, selectedCol) && Held(l, player) {
        var l :| Through(l, selectedRow, selectedCol) && Held(l, player);
        LineFoundByCheckWin(player, selectedRow, selectedCol, l);
      }
    }

    /** A successful win test names a winning line through the cell. */
    lemma CheckWinFindsLine(player: Seed, r: int, c: int)
      requires Shaped() && 0 <= r < ROWS && 0 <= c < COLS && CheckWin(player, r, c)
      ensures exists l :: Through(l, r, c) && Held(l, player)
    {
      var l :=
        if board[r, 0] == player && board[r, 1] == player && board[r, 2] == player then Row(r)
        else if board[0, c] == player && board[1, c] == player && board[2, c] == player then Column(c)
        else if r == c && board[0, 0] == player && board[1, 1] == player && board[2, 2] == player then MainDiagonal
        else AntiDiagonal;
      assert Through(l, r, c) && Held(l, player);
    }

    /** Every winning line through the cell is found by the win test. */
    lemma LineFoundByCheckWin(player: Seed, r: int, c: int, l: Line)
      requires Shaped() && Through(l, r, c) && Held(l, player)
      ensures CheckWin(player, r, c)
    {
      assert board[LineCell(l, 0).0, LineCell(l, 0).1] == player;
      assert board[LineCell(l, 1).0, LineCell(l, 1).1] == player;
      assert board[LineCell(l, 2).0, LineCell(l, 2).1] == player;
    }

    /**
     * Puts `player` on the selected cell and reports the phase that follows:
     * a win for `player`, play on while some cell is empty, or a draw.
     */
    method StepGame(player: Seed, selectedRow: int, selectedCol: int) returns (s: State)
      requires Shaped() && 0 <= selectedRow < ROWS && 0 <= selectedCol < COLS
      modifies board
      ensures board[selectedRow, selectedCol] == player
      ensures forall r, c :: 0 <= r < ROWS && 0 <= c < COLS && (r, c) != (selectedRow, selectedCol) ==>
        board[r, c] == old(board[r, c])
      ensures s == if CheckWin(player, selectedRow, selectedCol) then WonBy(player)
        else if Full() then Draw
        else Playing
    {
      board[selectedRow, selectedCol] := player;
      if CheckWin(player, selectedRow, selectedCol) {
        return WonBy(player);
      }
      for row := 0 to ROWS
        invariant forall r, c :: 0 <= r < row && 0 <= c < COLS ==> board[r, c] != NoSeed
      {
        for col := 0 to COLS
          invariant forall c :: 0 <= c < col ==> board[row, c] != NoSeed
        {
          if board[row, col] == NoSeed {
            return Playing;
          }
        }
      }
      return Draw;
    }

    /**
     * A click on cell (row, col). While playing, a click on an empty cell on
     * the board places the mover's seed there, sets the phase that follows and
     * hands the turn over, even when the move ended the game; any other click
     * does nothing. Once the game is over, any click starts a new game.
     */
    method Click(row: int, col: int)
      requires Valid()
      modifies this, board
      ensures Valid() && board == old(board)
      ensures old(currentState) != Playing ==>
        Cleared() && currentPlayer == Cross && currentState == Playing
      ensures (old(currentState) == Playing &&
        !(0 <= row < ROWS && 0 <= col < COLS && old(board[row, col]) == NoSeed)) ==>
        unchanged(board) && currentPlayer == old(currentPlayer) && currentState == Playing
      ensures (old(currentState) == Playing &&
        0 <= row < ROWS && 0 <= col < COLS && old(board[row, col]) == NoSeed) ==>
        var mover := old(currentPlayer);
        board[row, col] == mover &&
        (forall r, c :: 0 <= r < ROWS && 0 <= c < COLS && (r, c) != (row, col) ==> board[r, c] == old(board[r, c])) &&
        currentState == (if CheckWin(mover, row, col) then WonBy(mover) else if Full() then Draw else Playing) &&
        currentPlayer == Other(mover)
    {
      if currentState == Playing {
        if row >= 0 && row < ROWS && col >= 0 && col < COLS && board[row, col] == NoSeed {
          currentState := StepGame(currentPlayer, row, col);
          currentPlayer := Other(currentPlayer);
        }
      } else {
        NewGame();
      }
    }
  }
}
