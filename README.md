# Connect-Four board, modelled in Dafny

This project models the board of `connect-rust`, a terminal Connect-Four game.
The board is a flat vector of `cols * rows` cells. The cell at (col, row) sits
at position `col + row * cols`. Row `rows - 1` is the bottom of the board.
The board also records whose turn it is (Red moves first) and keeps a private
sentinel cell that absorbs writes outside the write bound. A drop lets the
mover's token fall into a column, fills the lowest empty cell there, and then
does one of two things:

- it reports the mover as the winner, when the new token completes four in a
  row vertically, horizontally or along either diagonal;
- otherwise, it passes the turn to the other player.

A column with no empty cell is refused.

The project has three modules:

- `Cells` (cells.dfy) covers values and reads. It holds the players, the cells
  and the grid as a value. It has the bounds-checked read (`At`) and the
  as-written write bound (`WriteSlot`, `Written`). It also has the four-cell
  windows that the win test scans (`CountOwned`, `WindowFull`) and the
  declarative win `Wins`. `Wins` is proved equal to the run-length
  formulation `RunOfFour`. Finally, `LowestEmpty` is the row a drop fills.
- `Rules` (rules.dfy) holds `Step`, which is `drop` as a function on values.
  It also holds `Play`, a sequence of drops, and the lemmas about both: which
  cell changes, when a column is refused, when the turn passes, and that
  tokens are never removed and always rest on a token or the bottom row.
- `Board` (board.dfy) holds the class `Board`. It has the array of cells, the
  turn and the sentinel, and four members:
  - the constructor fills the array with a push loop;
  - `Set` is the write;
  - `CheckWin` is the win test's loop with early return, proved equal to
    `Wins`;
  - `Drop` is the reverse scan over rows, proved equal to `Step`.

The model keeps three facts of the code as written:

- The write bound is one wider than the read bound: it rejects only
  `col > cols` and `row > rows`. A write to column `cols` in the bottom row
  indexes one past the end of the cells, and the source panics there
  (`WriteColumnPastEndPanics`). Higher up, such a write lands in column 0 of
  the next row down (`WriteColumnPastEndAliases`). `Set` requires exactly the
  coordinates that do not panic.
- An out-of-range column is not treated as a full column. `drop(cols)`
  panics, so `Drop` requires `column != cols`. A larger column reads empty in
  every row, so the drop picks the bottom row and writes only to the
  sentinel. It still passes the turn and answers "Valid Column"
  (`StepPastLastColumn`).
- Row `rows - 1` is the bottom of the board and is filled first. Row 0 is
  drawn at the top.

## Model

| member | source | states |
|---|---|---|
| `Cells.Other` | src/board.rs:130-133 | the turn after Red is Blue and after Blue is Red; it always changes hands |
| `Cells.At` | src/board.rs:235-243 | a coordinate with a negative part, `col > cols - 1` or `row > rows - 1` reads `Empty`; every other coordinate reads its own cell `cells[col + row * cols]`, which is inside the vector |
| `Cells.WriteSlot` | src/board.rs:247-255 | an in-grid write lands on the same position the read uses; a write goes to the sentinel only for an off-grid coordinate |
| `Cells.Written` | src/board.rs:246-255 | a write keeps the grid's shape; a sentinel write changes no cell; any other write changes exactly the slot position |
| `Cells.ReadAfterWrite` | src/board.rs:235-255 | after an in-grid write, reading the same coordinate gives the written cell and every other coordinate, in grid or not, reads as before |
| `Cells.WriteOutsideIgnored` | src/board.rs:247-253 | a write with a negative coordinate, `col > cols` or `row > rows` leaves every cell unchanged |
| `Cells.WriteColumnPastEndPanics` | src/board.rs:248-254 | a write to column `cols` in the bottom row lands at position `cols * rows`, one past the end, where the source panics |
| `Cells.WriteColumnPastEndAliases` | src/board.rs:248-254 | a write to column `cols` above the bottom row changes column 0 of the next row down |
| `Cells.CountOwned` | src/board.rs:148-162 | the window's filter/count is at most the window's length, and equals it exactly when every probed cell holds the player's token |
| `Cells.NoWinWithoutCentre` | src/board.rs:144-162 | every window contains offset 0, so there is no win unless (col, row) holds the player's token, and never at an off-grid coordinate |
| `Cells.SmallBoardNeverWins` | src/board.rs:143-229 | on a board with fewer than four columns and fewer than four rows, no window is ever full |
| `Cells.WinsIffRunOfFour` | src/board.rs:143-229 | a full window of four through (col, row) exists iff (col, row) holds the token and, in some direction, the runs on both sides add up to at least three; in particular a run of three never wins |
| `Cells.LowestEmpty` | src/board.rs:120-123 | the scan from row `rows - 1` upwards returns an empty row with only non-empty cells beneath it, or reports that no row of the column is empty |
| `Rules.Message` | src/board.rs:126-140 | the four answers of a drop map to the four texts "Red Won", "Blue Won", "Valid Column" and "Column Is Full", each text to exactly one answer |
| `Rules.MessageInjective` | src/board.rs:126-140 | different answers give different texts, so the datatype keeps all of the `String` answer |
| `Rules.Initial` | src/board.rs:48-60 | a new board has `cols * rows` cells, all reading `Empty`, and Red to move |
| `Rules.InitialSettled` | src/board.rs:48-60 | the empty board satisfies the gravity invariant |
| `Rules.DropWriteSafe` | src/board.rs:119-123 | every write a drop makes stays inside the vector, unless the column is `cols` |
| `Rules.Step` | src/board.rs:119-141 | a drop keeps the grid's shape; "Valid Column" passes the turn; a win names the mover and keeps the turn; a refusal changes nothing |
| `Rules.LowestEmptyIs` | src/board.rs:120-123 | the scan stops at the empty row that has only non-empty cells beneath it |
| `Rules.StepRefusesFullColumn` | src/board.rs:120-140 | a drop answers "Column Is Full" iff the column is in range and has no empty cell, and then cells and turn are unchanged |
| `Rules.StepFillsLowestEmpty` | src/board.rs:120-123 | in an in-range column with an empty cell, the drop writes the mover's token into the largest empty row and changes no other cell |
| `Rules.StepReportsWin` | src/board.rs:124-134 | after placing, the answer is the mover's win iff the new grid has four in a row through the new token; otherwise the answer is "Valid Column" and the turn passes |
| `Rules.StepStackWins` | src/board.rs:124-165 | a token landing on three of the mover's own stacked tokens wins |
| `Rules.StepPastLastColumn` | src/board.rs:119-134 | a column past `cols` changes no cell, but passes the turn and answers "Valid Column" |
| `Rules.StepKeepsTokens` | src/board.rs:119-141 | a drop never removes or replaces a token |
| `Rules.StepKeepsSettled` | src/board.rs:120-123 | a drop keeps every token resting on a token or on the bottom row |
| `Rules.SmallBoardNoWinner` | src/board.rs:124-129 | on a board smaller than four in both directions no drop is reported as a win |
| `Rules.Play` | src/board.rs:119-141 | a sequence of drops keeps the grid's shape |
| `Rules.TurnAlternates` | src/board.rs:130-133 | after `n` drops that each answer "Valid Column", the mover is the starting player iff `n` is even |
| `Rules.PlayKeepsTokens` | src/board.rs:119-141 | a sequence of drops keeps every token where it was placed |
| `Rules.PlayKeepsSettled` | src/board.rs:119-141 | a sequence of drops keeps the gravity invariant |
| `Board.Board.constructor` | src/board.rs:48-60 | the push loop builds `cols * rows` empty cells with Red to move and an empty sentinel |
| `Board.Board.Set` | src/board.rs:246-255 | the array becomes the as-written write of the old cells; the sentinel takes the value exactly when the write bound rejects the coordinate |
| `Board.Board.CheckWin` | src/board.rs:143-229 | the loop over start offsets and directions answers true iff the mover has a full window of four through (col, row); it changes nothing |
| `Board.Board.Drop` | src/board.rs:119-141 | the reverse scan leaves the cells, the turn and the answer exactly as `Step` gives them; the sentinel takes the mover's token iff the column is past `cols` |

## Left out

- `Board::draw` (src/board.rs:62-117) and the `Display` implementations of `Player` and `Board` (src/board.rs:24-31, 258-291) are left out. They only produce terminal output and text layout.
- src/args.rs (command-line parsing, with defaults of 7 columns and 6 rows) and src/main.rs (entry point) are not part of this model. They contain no board logic.
- Boards with zero columns or zero rows are left out: the read bound `cols - 1` underflows there. `Valid` requires both dimensions to be at least 1. The constructor itself accepts any size.
- `Drop` and `Step` require `column != cols`, because the source panics on that column. `Set` requires a coordinate that does not index past the end of the cells, for the same reason.
- Machine integers are not modelled: the `u32` to `isize` casts and a `usize` overflow of `cols * rows` are not captured. Columns are natural numbers and coordinates are unbounded integers.
- The sentinel is modelled as a field that is written and never read. The source's reads of off-grid coordinates return a fresh `Empty` rather than the sentinel, so the sentinel never influences a result.
