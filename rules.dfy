/// `Board::drop` of src/board.rs as a step function on values, and what one
/// drop and a sequence of drops promise: which cell changes, when the turn
/// passes, when a column is refused, and the shape of the grid kept.
module Rules {
  import opened Cells

  /** The `Ok` answers of a drop: the mover won, or play goes on. */
  datatype Outcome = Won(winner: Player) | ValidColumn

  /** The one `Err` answer of a drop. */
  datatype DropError = ColumnIsFull

  datatype Result = Ok(outcome: Outcome) | Err(error: DropError)

  /**
   * The text `drop` returns for each answer: the winner's name followed by
   * " Won", "Valid Column", or the error "Column Is Full".
   */
  function Message(r: Result): (text: string)
    ensures text == "Column Is Full" <==> r.Err?
    ensures text == "Valid Column" <==> r == Ok(ValidColumn)
    ensures text == "Red Won" <==> r == Ok(Won(Red))
    ensures text == "Blue Won" <==> r == Ok(Won(Blue))
  {
    match r
    case Ok(Won(Blue)) => "Blue Won"
    case Ok(Won(Red)) => "Red Won"
    case Ok(ValidColumn) => "Valid Column"
    case Err(ColumnIsFull) => "Column Is Full"
  }

  /** Different answers give different texts, so the datatype loses nothing of the `String` answer. */
  lemma MessageInjective(r1: Result, r2: Result)
    requires Message(r1) == Message(r2)
    ensures r1 == r2
  {
    match r1
    case Ok(Won(Red)) => assert Message(r2) == "Red Won";
    case Ok(Won(Blue)) => assert Message(r2) == "Blue Won";
    case Ok(ValidColumn) => assert Message(r2) == "Valid Column";
    case Err(ColumnIsFull) => assert Message(r2) == "Column Is Full";
  }

  /** What a board holds apart from its write sentinel: the grid and whose turn it is. */
  datatype State = State(grid: Grid, turn: Player)

  /** The state after a drop, with the drop's answer. */
  datatype Move = Move(after: State, result: Result)

  /** `Board::new(cols, rows)`: every cell empty, Red to move. */
  function Initial(cols: nat, rows: nat): (s: State)
    ensures |s.grid.cells| == cols * rows && s.grid.cols == cols && s.grid.rows == rows
    ensures s.turn == Red
    ensures cols >= 1 && rows >= 1 ==> Valid(s.grid)
    ensures Valid(s.grid) ==> forall col, row :: At(s.grid, col, row) == Empty
  {
    State(Grid(seq(cols * rows, _ => Empty), cols, rows), Red)
  }

  /** Every write `drop` makes stays inside `cells`, unless the column is `cols` itself. */
  lemma DropWriteSafe(g: Grid, column: nat, row: nat)
    requires Valid(g) && column != g.cols && row < g.rows
    ensures WriteSafe(g, column, row)
  {
    if column < g.cols {
      FlatIndexInRange(g.cols, g.rows, column, row);
    }
  }

  /**
   * `drop(column)`: put the mover's token in the first row, from the bottom
   * up, that reads `Empty`; then report the mover as winner, or pass the
   * turn. A column with no such row is refused. A column past `cols` reads
   * empty everywhere, so its bottom row is chosen and the write goes to the
   * sentinel. `column == cols` is excluded: there the source indexes past
   * the end of `cells` and panics.
   */
  ghost function Step(s: State, column: nat): (m: Move)
    requires Valid(s.grid) && column != s.grid.cols
    ensures Valid(m.after.grid)
    ensures m.after.grid.cols == s.grid.cols && m.after.grid.rows == s.grid.rows
    ensures m.result == Ok(ValidColumn) ==> m.after.turn == Other(s.turn)
    ensures m.result.Ok? && m.result.outcome.Won? ==>
              m.result.outcome.winner == s.turn && m.after.turn == s.turn
    ensures m.result.Err? ==> m.after == s
  {
    match LowestEmpty(s.grid, column, s.grid.rows)
    case None => Move(s, Err(ColumnIsFull))
    case Some(row) =>
      DropWriteSafe(s.grid, column, row);
      var g := Written(s.grid, column, row, Disc(s.turn));
      if Wins(g, s.turn, column, row) then Move(State(g, s.turn), Ok(Won(s.turn)))
      else Move(State(g, Other(s.turn)), Ok(ValidColumn))
  }

  /** The scan stops at the empty row with only tokens beneath it. */
  lemma LowestEmptyIs(g: Grid, column: int, row: nat)
    requires Valid(g) && row < g.rows && At(g, column, row) == Empty
    requires forall r :: row < r < g.rows ==> At(g, column, r) != Empty
    ensures LowestEmpty(g, column, g.rows) == Some(row)
  {
    var found := LowestEmpty(g, column, g.rows);
    assert found.Some?;
    assert found.value <= row;
    assert row <= found.value;
  }

  /** A drop is refused exactly when the column is in range and full, and then nothing changes. */
  lemma StepRefusesFullColumn(s: State, column: nat)
    requires Valid(s.grid) && column != s.grid.cols
    ensures Step(s, column).result == Err(ColumnIsFull) <==>
            column < s.grid.cols && ColumnFull(s.grid, column)
    ensures Step(s, column).result.Err? ==> Step(s, column).after == s
  {
    if column > s.grid.cols {
      assert At(s.grid, column, 0) == Empty;
    }
  }

  /**
   * Dropping into an in-range column fills its lowest empty cell (the
   * largest empty row, with only tokens beneath it) with the mover's token,
   * and no other cell changes.
   */
  lemma StepFillsLowestEmpty(s: State, column: nat, row: nat)
    requires Valid(s.grid) && column < s.grid.cols && row < s.grid.rows
    requires At(s.grid, column, row) == Empty
    requires forall r :: row < r < s.grid.rows ==> At(s.grid, column, r) != Empty
    ensures Step(s, column).result.Ok?
    ensures Step(s, column).after.grid.cells ==
            s.grid.cells[column + row * s.grid.cols := Disc(s.turn)]
    ensures forall col, r ::
              At(Step(s, column).after.grid, col, r) ==
              (if col == column && r == row then Disc(s.turn) else At(s.grid, col, r))
  {
    LowestEmptyIs(s.grid, column, row);
    forall col, r
      ensures At(Step(s, column).after.grid, col, r) ==
              (if col == column && r == row then Disc(s.turn) else At(s.grid, col, r))
    {
      ReadAfterWrite(s.grid, column, row, Disc(s.turn), col, r);
    }
  }

  /**
   * After filling (column, row) the mover is reported as winner exactly
   * when the new grid has four in a row through that cell; the turn passes
   * exactly when it does not.
   */
  lemma StepReportsWin(s: State, column: nat, row: nat)
    requires Valid(s.grid) && column < s.grid.cols && row < s.grid.rows
    requires At(s.grid, column, row) == Empty
    requires forall r :: row < r < s.grid.rows ==> At(s.grid, column, r) != Empty
    ensures Step(s, column).result == Ok(Won(s.turn)) <==>
            Wins(Step(s, column).after.grid, s.turn, column, row)
    ensures Step(s, column).result == Ok(ValidColumn) <==>
            !Wins(Step(s, column).after.grid, s.turn, column, row)
    ensures Step(s, column).after.turn ==
            if Wins(Step(s, column).after.grid, s.turn, column, row) then s.turn else Other(s.turn)
  {
    LowestEmptyIs(s.grid, column, row);
  }

  /**
   * Four in a column is a win: a token landing on three of the mover's own
   * tokens stacked directly beneath it makes the mover the winner.
   */
  lemma StepStackWins(s: State, column: nat, row: nat)
    requires Valid(s.grid) && column < s.grid.cols && row + 3 < s.grid.rows
    requires At(s.grid, column, row) == Empty
    requires forall r :: row < r < s.grid.rows ==> At(s.grid, column, r) != Empty
    requires forall r :: row < r <= row + 3 ==> At(s.grid, column, r) == Disc(s.turn)
    ensures Step(s, column).result == Ok(Won(s.turn))
  {
    StepFillsLowestEmpty(s, column, row);
    StepReportsWin(s, column, row);
    var h := Step(s, column).after.grid;
    forall x | 0 <= x <= 3
      ensures OwnsAt(h, s.turn, column, row, Vertical, x)
    {
      assert At(h, column, row + x) == (if x == 0 then Disc(s.turn) else At(s.grid, column, row + x));
    }
    assert WindowFull(h, s.turn, column, row, Vertical, 0);
  }

  /**
   * A column past `cols` changes no cell, yet passes the turn and answers
   * "Valid Column": its only write lands on the sentinel.
   */
  lemma StepPastLastColumn(s: State, column: nat)
    requires Valid(s.grid) && column > s.grid.cols
    ensures Step(s, column) == Move(State(s.grid, Other(s.turn)), Ok(ValidColumn))
  {
    var bottom := s.grid.rows - 1;
    assert At(s.grid, column, bottom) == Empty;
    assert LowestEmpty(s.grid, column, s.grid.rows) == Some(bottom);
    WriteOutsideIgnored(s.grid, column, bottom, Disc(s.turn));
    NoWinWithoutCentre(s.grid, s.turn, column, bottom);
  }

  /** Tokens are never removed or replaced: every non-empty cell keeps its token. */
  lemma StepKeepsTokens(s: State, column: nat)
    requires Valid(s.grid) && column != s.grid.cols
    ensures forall col, row :: At(s.grid, col, row) != Empty ==>
              At(Step(s, column).after.grid, col, row) == At(s.grid, col, row)
  {
    if column > s.grid.cols {
      StepPastLastColumn(s, column);
    } else {
      match LowestEmpty(s.grid, column, s.grid.rows)
      case None =>
      case Some(row) =>
        StepFillsLowestEmpty(s, column, row);
    }
  }

  /** Gravity: every token has a token beneath it or sits in the bottom row. */
  ghost predicate Settled(g: Grid)
    requires Valid(g)
  {
    forall col, row :: 0 <= row < g.rows - 1 && At(g, col, row) != Empty ==> At(g, col, row + 1) != Empty
  }

  /** The empty board is settled. */
  lemma InitialSettled(cols: nat, rows: nat)
    requires cols >= 1 && rows >= 1
    ensures Settled(Initial(cols, rows).grid)
  {
  }

  /** Every drop keeps the grid settled. */
  lemma StepKeepsSettled(s: State, column: nat)
    requires Valid(s.grid) && column != s.grid.cols && Settled(s.grid)
    ensures Settled(Step(s, column).after.grid)
  {
    if column > s.grid.cols {
      StepPastLastColumn(s, column);
    } else {
      match LowestEmpty(s.grid, column, s.grid.rows)
      case None =>
      case Some(row) =>
        StepFillsLowestEmpty(s, column, row);
        var h := Step(s, column).after.grid;
        forall col, r | 0 <= r < h.rows - 1 && At(h, col, r) != Empty
          ensures At(h, col, r + 1) != Empty
        {
          if col == column && r + 1 == row {
            assert At(s.grid, col, r) == Empty;
          }
        }
    }
  }

  /** On a board smaller than four both ways no drop is ever reported as a win. */
  lemma SmallBoardNoWinner(s: State, column: nat)
    requires Valid(s.grid) && column != s.grid.cols
    requires s.grid.cols < 4 && s.grid.rows < 4
    ensures !(Step(s, column).result.Ok? && Step(s, column).result.outcome.Won?)
  {
    match LowestEmpty(s.grid, column, s.grid.rows)
    case None =>
    case Some(row) =>
      DropWriteSafe(s.grid, column, row);
      SmallBoardNeverWins(Written(s.grid, column, row, Disc(s.turn)), s.turn, column, row);
  }

  /** Every column of a game avoids the panicking column `cols`. */
  predicate Playable(g: Grid, columns: seq<nat>)
  {
    forall i :: 0 <= i < |columns| ==> columns[i] != g.cols
  }

  /** The state after dropping into `columns` in order, starting from `s`. */
  ghost function Play(s: State, columns: seq<nat>): (t: State)
    requires Valid(s.grid) && Playable(s.grid, columns)
    ensures Valid(t.grid) && t.grid.cols == s.grid.cols && t.grid.rows == s.grid.rows
    decreases |columns|
  {
    if columns == [] then s
    else Play(Step(s, columns[0]).after, columns[1..])
  }

  /** Every drop of the sequence answers "Valid Column". */
  ghost predicate AllContinue(s: State, columns: seq<nat>)
    requires Valid(s.grid) && Playable(s.grid, columns)
    decreases |columns|
  {
    columns == [] ||
    (Step(s, columns[0]).result == Ok(ValidColumn) && AllContinue(Step(s, columns[0]).after, columns[1..]))
  }

  /** After `n` drops that each answer "Valid Column" the mover is the first one iff `n` is even. */
  lemma {:induction false} TurnAlternates(s: State, columns: seq<nat>)
    requires Valid(s.grid) && Playable(s.grid, columns) && AllContinue(s, columns)
    ensures Play(s, columns).turn == if |columns| % 2 == 0 then s.turn else Other(s.turn)
    decreases |columns|
  {
    if columns != [] {
      var next := Step(s, columns[0]).after;
      TurnAlternates(next, columns[1..]);
      assert Other(Other(s.turn)) == s.turn;
    }
  }

  /** A sequence of drops keeps every token where it was placed. */
  lemma {:induction false} PlayKeepsTokens(s: State, columns: seq<nat>)
    requires Valid(s.grid) && Playable(s.grid, columns)
    ensures forall col, row :: At(s.grid, col, row) != Empty ==>
              At(Play(s, columns).grid, col, row) == At(s.grid, col, row)
    decreases |columns|
  {
    if columns != [] {
      StepKeepsTokens(s, columns[0]);
      PlayKeepsTokens(Step(s, columns[0]).after, columns[1..]);
    }
  }

  /** A game started on an empty board stays settled. */
  lemma {:induction false} PlayKeepsSettled(s: State, columns: seq<nat>)
    requires Valid(s.grid) && Playable(s.grid, columns) && Settled(s.grid)
    ensures Settled(Play(s, columns).grid)
    decreases |columns|
  {
    if columns != [] {
      StepKeepsSettled(s, columns[0]);
      PlayKeepsSettled(Step(s, columns[0]).after, columns[1..]);
    }
  }
}
