/// The mutable board of src/board.rs: the cells live in an array that `drop`
/// updates in place, next to the turn and the write sentinel.
module Board {
  import opened Cells
  import opened Rules

  class Board {
    /** The cells, row-major: (col, row) is at `col + row * cols`. */
    const cells: array<Cell>
    const cols: nat
    const rows: nat
    /** Whose token the next drop places. */
    var turn: Player
    /** Where a write outside the write bound goes; nothing ever reads it. */
    var empty: Cell

    /** The grid as a value. */
    function Contents(): Grid
      reads this, cells
    {
      Grid(cells[..], cols, rows)
    }

    /** The board keeps the grid invariant of its cells. */
    ghost predicate Valid()
      reads this, cells
    {
      Cells.Valid(Contents())
    }

    ghost function Snapshot(): State
      reads this, cells
    {
      State(Contents(), turn)
    }

    /** `Board::new`: pushes `cols * rows` empty cells; Red moves first. */
    constructor (cols: nat, rows: nat)
      ensures fresh(cells)
      ensures Snapshot() == Initial(cols, rows)
      ensures cols >= 1 && rows >= 1 ==> Valid()
      ensures empty == Empty
    {
      var pushed: seq<Cell> := [];
      for k := 0 to cols * rows
        invariant |pushed| == k
        invariant forall j :: 0 <= j < k ==> pushed[j] == Empty
      {
        pushed := pushed + [Empty];
      }
      cells := new Cell[cols * rows](j requires 0 <= j < |pushed| => pushed[j]);
      this.cols := cols;
      this.rows := rows;
      turn := Red;
      empty := Empty;
      new;
      assert cells[..] == seq(cols * rows, _ => Empty);
    }

    /**
     * `board[(col, row)] = c`: a coordinate that passes the (one too wide)
     * write bound is stored in `cells`; any other goes to the sentinel.
     * Callers must not pass a coordinate whose position is past the end of
     * `cells`, where the source panics.
     */
    method Set(col: int, row: int, c: Cell)
      requires Valid() && WriteSafe(Contents(), col, row)
      modifies cells, this`empty
      ensures Valid()
      ensures Contents() == Written(old(Contents()), col, row, c)
      ensures empty == if WriteSlot(old(Contents()), col, row).None? then c else old(empty)
    {
      if col < 0 || col > cols {
        empty := c;
      } else if row < 0 || row > rows {
        empty := c;
      } else {
        cells[col + row * cols] := c;
      }
    }

    /**
     * `check_win(col, row)`: for each start offset `i` in `0..4` and each
     * direction, counts the cells of the window `-i..=3-i` that hold the
     * mover's token and stops as soon as one count reaches four.
     */
    method CheckWin(col: int, row: int) returns (won: bool)
      requires Valid()
      ensures won <==> Wins(Contents(), turn, col, row)
    {
      var g := Contents();
      for i := 0 to 4
        invariant forall d: Direction, j :: 0 <= j < i ==> !WindowFull(g, turn, col, row, d, j)
      {
        if CountOwned(g, turn, col, row, Vertical, -i, 3 - i) >= 4 {
          assert WindowFull(g, turn, col, row, Vertical, i);
          return true;
        }
        if CountOwned(g, turn, col, row, Horizontal, -i, 3 - i) >= 4 {
          assert WindowFull(g, turn, col, row, Horizontal, i);
          return true;
        }
        if CountOwned(g, turn, col, row, Diagonal, -i, 3 - i) >= 4 {
          assert WindowFull(g, turn, col, row, Diagonal, i);
          return true;
        }
        if CountOwned(g, turn, col, row, AntiDiagonal, -i, 3 - i) >= 4 {
          assert WindowFull(g, turn, col, row, AntiDiagonal, i);
          return true;
        }
        forall d: Direction
          ensures !WindowFull(g, turn, col, row, d, i)
        {
          assert d == Vertical || d == Horizontal || d == Diagonal || d == AntiDiagonal;
        }
      }
      return false;
    }

    /**
     * `drop(column)`: scans rows `rows - 1` down to 0 for the first cell that
     * reads `Empty`, writes the mover's token there, then reports the mover
     * as winner or passes the turn. `column == cols` is where the source
     * panics.
     */
    method Drop(column: nat) returns (r: Result)
      requires Valid() && column != cols
      modifies cells, this`turn, this`empty
      ensures Valid()
      ensures Move(Snapshot(), r) == Step(old(Snapshot()), column)
      ensures empty == if column > cols then Disc(old(turn)) else old(empty)
    {
      for i := rows downto 0
        invariant Contents() == old(Contents()) && turn == old(turn) && empty == old(empty)
        invariant forall row :: i <= row < rows ==> At(Contents(), column, row) != Empty
      {
        if At(Contents(), column, i) == Empty {
          LowestEmptyIs(Contents(), column, i);
          DropWriteSafe(Contents(), column, i);
          Set(column, i, Disc(turn));
          var won := CheckWin(column, i);
          if won {
            return Ok(Won(turn));
          }
          turn := Other(turn);
          return Ok(ValidColumn);
        }
      }
      return Err(ColumnIsFull);
    }
  }
}
