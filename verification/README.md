# Connect Four and Tic-Tac-Toe engines in Dafny

This project models the game logic of two small turn-based board games and proves properties about it. Both games share the three-valued `Seed` cell type.

- **Connect Four** has a 6 x 7 board. A click on a column drops the mover's seed into the lowest empty cell of that column. The program then tests whether that move won, whether the board is full, or passes the turn. Once a game is over, any click starts a new one.
- **Tic-Tac-Toe** has a 3 x 3 board. A click on an empty cell places the mover's seed there, sets the phase that follows and hands the turn over. Once a game is over, any click starts a new one.

Modules:

- `Seeds` (`seeds.dfy`): the cell contents and their icons.
- `GameState` (`game_state.dfy`): the game phase and the turn toggle. Both engines use them.
- `ConnectFourRules` (`connect_four_rules.dfy`): the Connect Four board as a value. It defines:
  - the four scans the win test walks through the played cell;
  - the win test as the program computes it;
  - the running counter the program keeps;
  - the corrected per-line test and its proof against "four in a row on a line through the cell";
  - gravity;
  - two concrete games, played from a new game and in play up to their last click, on which the program's test and the intended test disagree.
- `ConnectFourEngine` (`connect_four.dfy`): class `ConnectFour`. It holds the board as a 6 x 7 `array2<Seed>` that the click handler updates in place, plus a ghost `board` value that mirrors it.
- `TicTacToe` (`tic_tac_toe.dfy`): class `TicTacToeGame` over a 3 x 3 `array2<Seed>`, plus the eight winning lines as a reference definition for its win test.

The program's Connect Four win test keeps one counter for all four scans. It never resets that counter between them, and its fourth scan walks the wrong diagonal. The engine models the test exactly as written, because that is what the program does. `HasWonPerLine` and `ConnectFourRules.LineWin` give the intended test beside it. See "Findings".

## Model

| member | source | states |
|---|---|---|
| Seeds.Icon | src/OOP/Seed.java:3-14 | every seed has a non-empty icon; the icon is " " exactly for the empty seed |
| Seeds.IconsDistinct | src/OOP/Seed.java:4 | the cross shows "Snowy", the nought "Stormy", the empty seed " "; two seeds share an icon only if they are the same seed |
| GameState.Other | src/TicTacToeAI/connectfour/ConnectFour.java:44 | the next player is never the empty seed and never the current one |
| GameState.OtherTwice | src/GUI/TicTacToeGame.java:58 | toggling the turn twice gives the turn back to the same player |
| GameState.WonBy | src/TicTacToeAI/connectfour/ConnectFour.java:38 | the phase after a win is neither playing nor drawn, and it is CROSS_WON exactly when the cross moved |
| ConnectFourRules.ScansConcatenate | src/TicTacToeAI/connectfour/ConnectFour.java:121-158 | the steps are the row, column, anti-diagonal and diagonal scans, one after the other |
| ConnectFourRules.CounterStep | src/TicTacToeAI/connectfour/ConnectFour.java:122-128 | while no run of four has been seen, one step creates a run of four exactly when it is a match and the counter stood at three |
| ConnectFourRules.CounterFindsFour | src/TicTacToeAI/connectfour/ConnectFour.java:120-128 | a counter that adds one on a match, drops to zero on a miss and stops at four reaches four exactly when the entries hold four consecutive matches |
| ConnectFourRules.CounterAdvance | src/TicTacToeAI/connectfour/ConnectFour.java:122-128 | one more entry moves the counter by the program's rule; reaching four proves a run of four in the whole sequence |
| ConnectFourRules.FourInPrefix | src/TicTacToeAI/connectfour/ConnectFour.java:124-125 | a run of four found early is still a run of four in the whole sequence, so returning early is sound |
| ConnectFourRules.CounterAfterSticks | src/TicTacToeAI/connectfour/ConnectFour.java:124-125 | once the counter is at four it stays there, as the scan has stopped |
| ConnectFourRules.CounterAfterPrefix | src/TicTacToeAI/connectfour/ConnectFour.java:120-158 | the counter after k steps equals the counter run over the first k entries of the scans |
| ConnectFourRules.CounterAfterWins | src/TicTacToeAI/connectfour/ConnectFour.java:119-158 | the counter reaching four at any step means the as-written win test holds |
| ConnectFourRules.CounterAfterAll | src/TicTacToeAI/connectfour/ConnectFour.java:119-160 | after all steps the counter is at four exactly when the as-written win test holds |
| ConnectFourRules.LineScan | src/TicTacToeAI/connectfour/ConnectFour.java:121-158 | each corrected scan has one entry per row or column, and entry k tests the k-th cell of that line |
| ConnectFourRules.FourFromInScan | src/TicTacToeAI/connectfour/ConnectFour.java:121-158 | four seeds in a row on a line through the cell show up as four consecutive matches in that line's scan |
| ConnectFourRules.StraightFourOnLine | src/TicTacToeAI/connectfour/ConnectFour.java:121-138 | four consecutive matches in the row or column scan are four seeds in a row on that line |
| ConnectFourRules.SlantedFourOnLine | src/TicTacToeAI/connectfour/ConnectFour.java:139-158 | four consecutive matches in either corrected diagonal scan are four seeds in a row on that diagonal |
| ConnectFourRules.LineWinCorrect | src/TicTacToeAI/connectfour/ConnectFour.java:119-160 | the corrected per-line test holds exactly when four seeds in a row lie on some line through the played cell |
| ConnectFourRules.FourOnThreeLinesWins | src/TicTacToeAI/connectfour/ConnectFour.java:119-148 | the as-written test succeeds whenever four in a row lie on the row, the column or the anti-diagonal through the cell |
| ConnectFourRules.DiagonalAsWrittenMirrors | src/TicTacToeAI/connectfour/ConnectFour.java:149-151 | the fourth scan as written is the diagonal scan through the mirrored cell (colSelected, rowSelected) |
| ConnectFourRules.LowestEmptyFrom | src/TicTacToeAI/connectfour/ConnectFour.java:34-35 | searching upward from a row finds an empty cell, and every cell below it up to that row is occupied |
| ConnectFourRules.LandingRow | src/TicTacToeAI/connectfour/ConnectFour.java:34-36 | a dropped seed lands in the largest row index whose cell is empty |
| ConnectFourRules.Place | src/TicTacToeAI/connectfour/ConnectFour.java:36 | placing a seed sets that one cell and leaves every other cell as it was |
| ConnectFourRules.DropKeepsSettled | src/TicTacToeAI/connectfour/ConnectFour.java:34-36 | a drop keeps gravity: no empty cell lies below an occupied one |
| ConnectFourRules.SettledColumn | src/TicTacToeAI/connectfour/ConnectFour.java:33-35 | under gravity a column has room exactly when its top cell is empty, and everything above the landing row is empty |
| ConnectFourRules.EmptyGrid | src/TicTacToeAI/connectfour/ConnectFour.java:80-84 | the cleared board has every cell empty |
| ConnectFourRules.EmptySettled | src/TicTacToeAI/connectfour/ConnectFour.java:80-84 | the cleared board obeys gravity and is not full |
| ConnectFourRules.Replay | src/TicTacToeAI/connectfour/ConnectFour.java:32-52 | alternating seeds dropped into the named columns, without stopping at a win or a draw; a column off the board or full stops the replay; every board reached obeys gravity |
| ConnectFourRules.Stacked | src/TicTacToeAI/connectfour/ConnectFour.java:33-36 | a board whose columns hold stacks resting on the bottom row obeys gravity, and a column has room exactly when its stack is shorter than the column |
| ConnectFourRules.StackedDrop | src/TicTacToeAI/connectfour/ConnectFour.java:33-36 | a drop into a column with room lands directly on top of that column's stack and changes nothing else |
| ConnectFourRules.ReplayDropped | src/TicTacToeAI/connectfour/ConnectFour.java:32-52 | replaying a sequence of drops puts onto each column exactly the seeds dropped into it, in order, by alternating players |
| ConnectFourRules.EmptyStacked | src/TicTacToeAI/connectfour/ConnectFour.java:80-84 | the cleared board is the board of empty stacks |
| ConnectFourRules.ReplayFromEmpty | src/TicTacToeAI/connectfour/ConnectFour.java:32-52 | drops from a new game that fit their columns leave the board whose columns hold, bottom up, the seeds dropped into them |
| ConnectFourRules.ReplayLast | src/TicTacToeAI/connectfour/ConnectFour.java:32-52 | the last of several drops is made, by the player whose turn it then is, on the board the drops before it leave |
| ConnectFourRules.Play | src/TicTacToeAI/connectfour/ConnectFour.java:32-52 | successive clicks while the game is in play; a drop before the last that wins under the program's test or fills the board ends the game, so the clicks reach no board; clicks that stay in play reach the board their drops replay to |
| ConnectFourRules.WinGrows | src/TicTacToeAI/connectfour/ConnectFour.java:119-160 | a win under the program's test stays a win when seeds are added to the board |
| ConnectFourRules.ReplayGrows | src/TicTacToeAI/connectfour/ConnectFour.java:32-52 | a replay only adds seeds: every seed already on the board stays in its cell |
| ConnectFourRules.PlayQuiet | src/TicTacToeAI/connectfour/ConnectFour.java:32-52 | when the board before the last click is not full and no seed on it wins at its own cell, no earlier click ended the game, and the clicks reach the replayed board |
| ConnectFourRules.MissesBreakRuns | src/TicTacToeAI/connectfour/ConnectFour.java:122-128 | a scan whose misses are at most four apart, starting within its first four steps and ending within its last four, has no four consecutive matches, so the counter never reaches four |
| ConnectFourRules.CarryOverReached | src/TicTacToeAI/connectfour/ConnectFour.java:32-52 | the carry-over game stays in play: no click before the last of the nine clicks 6 6 0 6 6 1 6 1 6 from a new game, the cross first, wins or fills the board, and the last one leaves the carry-over board |
| ConnectFourRules.CarryOverReplayed | src/TicTacToeAI/connectfour/ConnectFour.java:32-52 | the nine drops of the carry-over game leave the carry-over board |
| ConnectFourRules.CarryOverBeforeLastReached | src/TicTacToeAI/connectfour/ConnectFour.java:32-52 | the first eight drops of the carry-over game leave the board before its last click |
| ConnectFourRules.CarryOverLastDrop | src/TicTacToeAI/connectfour/ConnectFour.java:33-36 | the last click of the carry-over game, in column 6, lands at (0, 6) and leaves the carry-over board |
| ConnectFourRules.CarryOverBeforeLastQuiet | src/TicTacToeAI/connectfour/ConnectFour.java:119-160 | on the carry-over board before the last click, no seed wins at its own cell under the program's test |
| ConnectFourRules.CarryOverBeforeLastOpen | src/TicTacToeAI/connectfour/ConnectFour.java:162-171 | the carry-over board before the last click has an empty cell, so it is no draw |
| ConnectFourRules.MirroredDiagonalReached | src/TicTacToeAI/connectfour/ConnectFour.java:32-52 | the mirrored-diagonal game stays in play: no click before the last of the eleven clicks 1 0 0 0 0 1 1 2 2 6 3 from a new game, the cross first, wins or fills the board, and the last one leaves the mirrored-diagonal board |
| ConnectFourRules.MirroredDiagonalReplayed | src/TicTacToeAI/connectfour/ConnectFour.java:32-52 | the eleven drops of the mirrored-diagonal game leave the mirrored-diagonal board |
| ConnectFourRules.MirroredDiagonalBeforeLastReached | src/TicTacToeAI/connectfour/ConnectFour.java:32-52 | the first ten drops of the mirrored-diagonal game leave the board before its last click |
| ConnectFourRules.MirroredDiagonalLastDrop | src/TicTacToeAI/connectfour/ConnectFour.java:33-36 | the last click of the mirrored-diagonal game, in column 3, lands at (5, 3) and leaves the mirrored-diagonal board |
| ConnectFourRules.MirroredDiagonalBeforeLastQuiet | src/TicTacToeAI/connectfour/ConnectFour.java:119-160 | on the mirrored-diagonal board before the last click, no seed wins at its own cell under the program's test |
| ConnectFourRules.MirroredDiagonalBeforeLastOpen | src/TicTacToeAI/connectfour/ConnectFour.java:162-171 | the mirrored-diagonal board before the last click has an empty cell, so it is no draw |
| ConnectFourRules.CarryOverCounter | src/TicTacToeAI/connectfour/ConnectFour.java:120-134 | on the carry-over board the counter is one after the row scan, because the row ends on the played cell, and four after the third cell of the column scan, so the as-written test reports a win |
| ConnectFourRules.CarryOverSpuriousWin | src/TicTacToeAI/connectfour/ConnectFour.java:120 | the as-written test reports a win for the cross at (0, 6), although no line through that cell holds four crosses |
| ConnectFourRules.MirroredDiagonalMissed | src/TicTacToeAI/connectfour/ConnectFour.java:150 | four crosses lie on the diagonal through (5, 3), and the corrected test finds them, but the as-written test does not |
| ConnectFourEngine.ConnectFour.constructor | src/TicTacToeAI/connectfour/ConnectFour.java:70-77 | a new engine has a fresh, empty board, the cross to move and the game in play |
| ConnectFourEngine.ConnectFour.NewGame | src/TicTacToeAI/connectfour/ConnectFour.java:79-88 | every cell becomes empty, the cross moves next and the game is in play; the board array is the same object |
| ConnectFourEngine.ConnectFour.Holds | src/TicTacToeAI/connectfour/ConnectFour.java:141 | the per-step test is true exactly when the position is on the board and holds the seed |
| ConnectFourEngine.ConnectFour.HasWon | src/TicTacToeAI/connectfour/ConnectFour.java:119-160 | the result is the as-written win test: four consecutive matches in the four scans run back to back with one counter |
| ConnectFourEngine.ConnectFour.RowPass | src/TicTacToeAI/connectfour/ConnectFour.java:121-129 | after the row loop the counter holds its value after the row's steps |
| ConnectFourEngine.ConnectFour.ColumnPass | src/TicTacToeAI/connectfour/ConnectFour.java:130-138 | the column loop continues the counter from the row scan |
| ConnectFourEngine.ConnectFour.AntiDiagonalPass | src/TicTacToeAI/connectfour/ConnectFour.java:139-148 | the anti-diagonal loop continues the counter; positions off the board count as misses |
| ConnectFourEngine.ConnectFour.DiagonalPass | src/TicTacToeAI/connectfour/ConnectFour.java:149-158 | the last loop continues the counter along column rowSelected - colSelected + row, as written |
| ConnectFourEngine.ConnectFour.HasWonPerLine | src/TicTacToeAI/connectfour/ConnectFour.java:119-160 | the corrected test, with a fresh counter per line and the diagonal through the cell, returns exactly the per-line win |
| ConnectFourEngine.ConnectFour.LinePass | src/TicTacToeAI/connectfour/ConnectFour.java:121-158 | one line scanned with its own counter finds four in a row exactly when the line holds them |
| ConnectFourEngine.ConnectFour.IsDraw | src/TicTacToeAI/connectfour/ConnectFour.java:162-171 | true exactly when no cell is empty; the board is only read |
| ConnectFourEngine.ConnectFour.ClickColumn | src/TicTacToeAI/connectfour/ConnectFour.java:32-52 | keeps gravity; game over: a new game; column off the board or full: nothing changes; otherwise only the lowest empty cell of the column gets the mover's seed, then the mover's win, a draw, or the turn passes (details below) |
| TicTacToe.TicTacToeGame.constructor | src/GUI/TicTacToeGame.java:37-39 | a new game has a fresh, empty 3 x 3 board, the cross to move and the game in play (the constructor ends with newGame at line 85) |
| TicTacToe.TicTacToeGame.InitGame | src/GUI/TicTacToeGame.java:88-90 | a freshly allocated 3 x 3 board; phase and player untouched |
| TicTacToe.TicTacToeGame.NewGame | src/GUI/TicTacToeGame.java:92-100 | all nine cells become empty, the cross moves next and the game is in play |
| TicTacToe.TicTacToeGame.CheckWinExact | src/GUI/TicTacToeGame.java:121-152 | the fixed conjunction is true exactly when some winning line through the selected cell is all `player` (row, column, main diagonal when row == col, anti-diagonal when row + col == 2) |
| TicTacToe.TicTacToeGame.CheckWinFindsLine | src/GUI/TicTacToeGame.java:121-149 | a successful win test names a winning line through the cell |
| TicTacToe.TicTacToeGame.LineFoundByCheckWin | src/GUI/TicTacToeGame.java:121-151 | every winning line through the cell is found by the win test |
| TicTacToe.TicTacToeGame.StepGame | src/GUI/TicTacToeGame.java:102-119 | only the selected cell changes, to `player`; the result is the win for `player` if the win test holds, otherwise DRAW when the board is full and PLAYING while a cell is empty |
| TicTacToe.TicTacToeGame.Click | src/GUI/TicTacToeGame.java:54-62 | game over: a new game; cell off the board or occupied: nothing changes; otherwise only that cell gets the mover's seed, the phase is the step's result and the turn passes even when the game ended (details below) |

`ConnectFourEngine.ConnectFour.ClickColumn` keeps the object invariant, including gravity. Its contract covers three cases:

- **Game over:** the click acts as a new game.
- **Column off the board or full:** board, player and phase are unchanged.
- **Otherwise:**
  - exactly one cell changes: the lowest empty cell of the column receives the mover's seed;
  - if the as-written test wins, the phase becomes the mover's win and the mover keeps the turn;
  - otherwise, if the board is full, the phase becomes DRAW;
  - otherwise the turn passes to the other player.

`TicTacToe.TicTacToeGame.Click` also covers three cases:

- **Game over:** the click acts as a new game.
- **Cell off the board or occupied:** board, player and phase are unchanged.
- **Otherwise:** the selected cell, and only that cell, receives the mover's seed. The phase is what the step game returns. The turn passes to the other player unconditionally, even when the move ended the game.

## Left out

- Swing painting, the status bar, colours, fonts, sound effects and the `userPlayer` field. They are presentation.
- The end-of-game and player-selection dialogs. The "Play Again" path is a call of `NewGame`, which is modelled.
- The menu wiring and `System.exit`. These are event-thread and process plumbing.
- The mouse pixel-to-cell division in both click handlers. It depends on the `Cell.SIZE` constant and on AWT coordinates. Both click methods take the row or column directly.
- `Board`, `Cell` and the `State` enum of the Connect Four package are not part of this model.
  - The board is a 6 x 7 array of seeds; the `Cell` objects and any aliasing between them are not modelled.
  - `State` is a datatype with the four phases the program uses.
- The Connect Four `initGame` also shows a dialog. The constructor models the rest: a fresh board followed by `newGame`.
- In `TicTacToeGame`, `initGame` allocates an array of Java nulls. Here the new array holds arbitrary seeds, which is safe because `newGame` clears it before any click.
- ConnectFourRules.Replay does not stop at a win or a draw. `ConnectFourRules.Play` is the replay that does, and `PlayQuiet` relates the two.
- ConnectFourRules.Play replays clicks on board values. It is not proved to agree with a sequence of `ClickColumn` calls on the engine object.
- `ConnectFourEngine.ConnectFour.ClickColumn` uses the as-written win test (`HasWon`), so it reproduces the program's spurious and missed wins. The corrected `HasWonPerLine` is given beside it, but the click handler does not call it.

## Findings

| source | as written | input that shows it | evidently intended | confidence | as-written member | corrected member |
|---|---|---|---|---|---|---|
| src/TicTacToeAI/connectfour/ConnectFour.java:120 | `count` is set to 0 once, before the row scan, and carried into the column, anti-diagonal and diagonal scans | column 6 holds, from the bottom, X O O X X X, column 0 an X and column 1 two noughts (clicks 6 6 0 6 6 1 6 1 6 from a new game, none before the last winning or filling the board); the last cross lands at (0, 6): the row scan ends on it with the counter at one and the column scan counts it again, reaching four after three crosses | a separate count for each line | not executed | ConnectFourRules.CarryOverSpuriousWin | ConnectFourEngine.ConnectFour.HasWonPerLine |
| src/TicTacToeAI/connectfour/ConnectFour.java:150 | the fourth scan looks at column `rowSelected - colSelected + row` | clicks 1 0 0 0 0 1 1 2 2 6 3 from a new game, none before the last winning or filling the board, put crosses at (2, 0), (3, 1), (4, 2) and (5, 3), the last one just dropped | column `colSelected - rowSelected + row`, the diagonal through the played cell | not executed | ConnectFourRules.MirroredDiagonalMissed | ConnectFourRules.LineWinCorrect |
