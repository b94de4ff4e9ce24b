/// The grid of a Connect-Four board (src/board.rs): the two players, the
/// cells, the bounds-checked read and write, the four-cell windows that the
/// win test scans, and the row a token falls to.
module Cells {

  datatype Option<T> = None | Some(value: T)

  /** The two players; `Red` moves first. */
  datatype Player = Red | Blue

  /** The player whose turn follows `p`'s. */
  function Other(p: Player): (q: Player)
    ensures q != p
  {
    match p
    case Red => Blue
    case Blue => Red
  }

  /** A cell is empty or holds one player's token. */
  datatype Cell = Empty | Disc(owner: Player)

  /**
   * `cols * rows` cells stored flat, the cell at (col, row) at position
   * `col + row * cols`. Row 0 is drawn at the top and row `rows - 1` at the
   * bottom, so tokens pile up from row `rows - 1` towards row 0.
   */
  datatype Grid = Grid(cells: seq<Cell>, cols: nat, rows: nat)

  /** The read bound `cols - 1` underflows for an empty dimension. */
  predicate Valid(g: Grid)
  {
    g.cols >= 1 && g.rows >= 1 && |g.cells| == g.cols * g.rows
  }

  predicate InGrid(g: Grid, col: int, row: int)
  {
    0 <= col < g.cols && 0 <= row < g.rows
  }

  lemma MulMonotone(a: int, b: int, k: nat)
    requires a <= b
    ensures a * k <= b * k
  {
    assert b * k - a * k == (b - a) * k;
  }

  /** Every in-grid coordinate has its own position inside `cells`. */
  lemma FlatIndexInRange(cols: nat, rows: nat, col: int, row: int)
    requires 0 <= col < cols && 0 <= row < rows
    ensures 0 <= row * cols && col + row * cols < cols * rows
  {
    MulMonotone(0, row, cols);
    MulMonotone(row, rows - 1, cols);
    assert (rows - 1) * cols == rows * cols - cols;
  }

  /** Two in-grid coordinates sharing a position are the same coordinate. */
  lemma FlatIndexInjective(cols: nat, col1: int, row1: int, col2: int, row2: int)
    requires 0 <= col1 < cols && 0 <= col2 < cols && 0 <= row1 && 0 <= row2
    requires col1 + row1 * cols == col2 + row2 * cols
    ensures col1 == col2 && row1 == row2
  {
    if row1 < row2 {
      assert (row1 + 1) * cols == row1 * cols + cols;
      MulMonotone(row1 + 1, row2, cols);
      assert false;
    } else if row2 < row1 {
      assert (row2 + 1) * cols == row2 * cols + cols;
      MulMonotone(row2 + 1, row1, cols);
      assert false;
    }
  }

  /**
   * The read `board[(col, row)]`: a coordinate outside the grid reads as
   * `Empty`; any other reads its own cell.
   */
  function At(g: Grid, col: int, row: int): (c: Cell)
    requires Valid(g)
    ensures InGrid(g, col, row) ==>
              col + row * g.cols < |g.cells| && c == g.cells[col + row * g.cols]
    ensures !InGrid(g, col, row) ==> c == Empty
  {
    if col < 0 || col > g.cols - 1 then Empty
    else if row < 0 || row > g.rows - 1 then Empty
    else
      FlatIndexInRange(g.cols, g.rows, col, row);
      g.cells[col + row * g.cols]
  }

  /**
   * Where the write `board[(col, row)] = c` lands: a position of `cells`, or
   * `None` for the private sentinel. The guard rejects only `col > cols` and
   * `row > rows`, one past the read bound.
   */
  function WriteSlot(g: Grid, col: int, row: int): (slot: Option<int>)
    requires Valid(g)
    ensures InGrid(g, col, row) ==> slot == Some(col + row * g.cols)
    ensures slot.None? ==> !InGrid(g, col, row)
    ensures slot.Some? ==> 0 <= slot.value
  {
    if col < 0 || col > g.cols then None
    else if row < 0 || row > g.rows then None
    else
      MulMonotone(0, row, g.cols);
      Some(col + row * g.cols)
  }

  /** The write does not index past the end of `cells` (the source panics there). */
  predicate WriteSafe(g: Grid, col: int, row: int)
    requires Valid(g)
  {
    match WriteSlot(g, col, row)
    case None => true
    case Some(k) => k < |g.cells|
  }

  /** The grid after `board[(col, row)] = c`. */
  function Written(g: Grid, col: int, row: int, c: Cell): (h: Grid)
    requires Valid(g) && WriteSafe(g, col, row)
    ensures Valid(h) && h.cols == g.cols && h.rows == g.rows
    ensures WriteSlot(g, col, row).None? ==> h == g
    ensures WriteSlot(g, col, row).Some? ==>
              h.cells == g.cells[WriteSlot(g, col, row).value := c]
  {
    match WriteSlot(g, col, row)
    case None => g
    case Some(k) => g.(cells := g.cells[k := c])
  }

  /** An in-grid write changes exactly the cell that reads back at that coordinate. */
  lemma ReadAfterWrite(g: Grid, col: int, row: int, c: Cell, col2: int, row2: int)
    requires Valid(g) && InGrid(g, col, row)
    ensures WriteSafe(g, col, row)
    ensures At(Written(g, col, row, c), col2, row2) ==
            if col2 == col && row2 == row then c else At(g, col2, row2)
  {
    FlatIndexInRange(g.cols, g.rows, col, row);
    var h := Written(g, col, row, c);
    var k := col + row * g.cols;
    assert h.cells == g.cells[k := c];
    if !InGrid(g, col2, row2) {
      assert At(h, col2, row2) == Empty == At(g, col2, row2);
    } else if col2 == col && row2 == row {
      assert At(h, col2, row2) == h.cells[k] == c;
    } else {
      var k2 := col2 + row2 * g.cols;
      FlatIndexInRange(g.cols, g.rows, col2, row2);
      if k == k2 {
        FlatIndexInjective(g.cols, col, row, col2, row2);
      }
      assert k != k2;
      assert At(h, col2, row2) == h.cells[k2] == g.cells[k2] == At(g, col2, row2);
    }
  }

  /** A write with a negative coordinate, `col > cols` or `row > rows` leaves every cell alone. */
  lemma WriteOutsideIgnored(g: Grid, col: int, row: int, c: Cell)
    requires Valid(g)
    requires col < 0 || col > g.cols || row < 0 || row > g.rows
    ensures WriteSafe(g, col, row) && Written(g, col, row, c) == g
  {
  }

  /**
   * The write bound is one too wide: a write to column `cols` in the bottom
   * row lands one past the end of `cells`, where the source panics.
   */
  lemma WriteColumnPastEndPanics(g: Grid)
    requires Valid(g)
    ensures WriteSlot(g, g.cols, g.rows - 1) == Some(|g.cells|)
    ensures !WriteSafe(g, g.cols, g.rows - 1)
  {
    assert g.cols + (g.rows - 1) * g.cols == g.cols * g.rows;
  }

  /**
   * Above the bottom row, a write to column `cols` lands in column 0 of the
   * next row down instead of being discarded.
   */
  lemma WriteColumnPastEndAliases(g: Grid, row: int, c: Cell)
    requires Valid(g) && 0 <= row < g.rows - 1
    ensures WriteSafe(g, g.cols, row) && WriteSafe(g, 0, row + 1)
    ensures Written(g, g.cols, row, c) == Written(g, 0, row + 1, c)
  {
    assert g.cols + row * g.cols == (row + 1) * g.cols;
    FlatIndexInRange(g.cols, g.rows, 0, row + 1);
  }

  /** The four directions the win test scans. */
  datatype Direction = Vertical | Horizontal | Diagonal | AntiDiagonal

  /** Column of the cell at offset `x` from column `col` along `d`. */
  function ProbeCol(d: Direction, col: int, x: int): int
  {
    match d
    case Vertical => col
    case Horizontal => col + x
    case Diagonal => col + x
    case AntiDiagonal => col + x
  }

  /** Row of the cell at offset `x` from row `row` along `d`. */
  function ProbeRow(d: Direction, row: int, x: int): int
  {
    match d
    case Vertical => row + x
    case Horizontal => row
    case Diagonal => row + x
    case AntiDiagonal => row - x
  }

  /** The cell at offset `x` from (col, row) along `d` holds a token of `p`. */
  predicate OwnsAt(g: Grid, p: Player, col: int, row: int, d: Direction, x: int)
    requires Valid(g)
  {
    match At(g, ProbeCol(d, col, x), ProbeRow(d, row, x))
    case Empty => false
    case Disc(q) => q == p
  }

  /**
   * How many offsets in `lo..=hi` along `d` hold a token of `p`: the
   * `filter(..).count()` of the win test.
   */
  function CountOwned(g: Grid, p: Player, col: int, row: int, d: Direction, lo: int, hi: int): (n: nat)
    requires Valid(g) && lo <= hi + 1
    ensures n <= hi - lo + 1
    ensures n == hi - lo + 1 <==> forall x :: lo <= x <= hi ==> OwnsAt(g, p, col, row, d, x)
    decreases hi - lo + 1
  {
    if lo > hi then 0
    else (if OwnsAt(g, p, col, row, d, lo) then 1 else 0) + CountOwned(g, p, col, row, d, lo + 1, hi)
  }

  /** The window of offsets `-i..=3-i` along `d` is four tokens of `p`. */
  predicate WindowFull(g: Grid, p: Player, col: int, row: int, d: Direction, i: int)
    requires Valid(g)
  {
    forall x :: -i <= x <= 3 - i ==> OwnsAt(g, p, col, row, d, x)
  }

  /**
   * `p` has four in a row through (col, row): some window of four cells
   * along one of the four directions that contains (col, row) is all `p`.
   */
  ghost predicate Wins(g: Grid, p: Player, col: int, row: int)
    requires Valid(g)
  {
    exists d: Direction, i: int :: 0 <= i < 4 && WindowFull(g, p, col, row, d, i)
  }

  /**
   * Every window contains its centre, so without `p`'s token at (col, row)
   * there is no win; in particular never at an off-grid coordinate.
   */
  lemma NoWinWithoutCentre(g: Grid, p: Player, col: int, row: int)
    requires Valid(g) && At(g, col, row) != Disc(p)
    ensures !Wins(g, p, col, row)
  {
    forall d: Direction, i: int | 0 <= i < 4
      ensures !WindowFull(g, p, col, row, d, i)
    {
      assert ProbeCol(d, col, 0) == col && ProbeRow(d, row, 0) == row;
      assert !OwnsAt(g, p, col, row, d, 0);
    }
  }

  /** On a board with fewer than four columns and fewer than four rows nobody can win. */
  lemma SmallBoardNeverWins(g: Grid, p: Player, col: int, row: int)
    requires Valid(g) && g.cols < 4 && g.rows < 4
    ensures !Wins(g, p, col, row)
  {
    forall d: Direction, i: int | 0 <= i < 4
      ensures !WindowFull(g, p, col, row, d, i)
    {
      if !InGrid(g, ProbeCol(d, col, -i), ProbeRow(d, row, -i)) {
        assert !OwnsAt(g, p, col, row, d, -i);
      } else {
        assert !OwnsAt(g, p, col, row, d, 3 - i);
      }
    }
  }

  /** Offset `j` steps forwards, or `j` steps backwards. */
  function Signed(forward: bool, j: int): int
  {
    if forward then j else -j
  }

  /**
   * Length of the run of `p`'s tokens next to (col, row) along `d`, going
   * forwards or backwards, counted up to `k` cells.
   */
  function Reach(g: Grid, p: Player, col: int, row: int, d: Direction, forward: bool, k: nat): (n: nat)
    requires Valid(g)
    ensures n <= k
    ensures forall j :: 1 <= j <= n ==> OwnsAt(g, p, col, row, d, Signed(forward, j))
    ensures n < k ==> !OwnsAt(g, p, col, row, d, Signed(forward, n + 1))
  {
    if k == 0 then 0
    else
      var m := Reach(g, p, col, row, d, forward, k - 1);
      if m == k - 1 && OwnsAt(g, p, col, row, d, Signed(forward, k)) then k else m
  }

  /**
   * Run formulation of a win: `p` owns (col, row) and in some direction
   * the runs on both sides of it add up to at least three more cells.
   */
  ghost predicate RunOfFour(g: Grid, p: Player, col: int, row: int)
    requires Valid(g)
  {
    At(g, col, row) == Disc(p) &&
    exists d: Direction :: Reach(g, p, col, row, d, true, 3) + Reach(g, p, col, row, d, false, 3) >= 3
  }

  /** The window formulation and the run formulation of a win agree. */
  lemma WinsIffRunOfFour(g: Grid, p: Player, col: int, row: int)
    requires Valid(g)
    ensures Wins(g, p, col, row) <==> RunOfFour(g, p, col, row)
  {
    if Wins(g, p, col, row) {
      WinsGivesRun(g, p, col, row);
    }
    if RunOfFour(g, p, col, row) {
      RunGivesWin(g, p, col, row);
    }
  }

  /** A run of `m` tokens next to the centre is seen by `Reach` whenever `m <= k`. */
  lemma {:induction false} ReachCovers(g: Grid, p: Player, col: int, row: int, d: Direction, forward: bool, k: nat, m: nat)
    requires Valid(g) && m <= k
    requires forall j :: 1 <= j <= m ==> OwnsAt(g, p, col, row, d, Signed(forward, j))
    ensures Reach(g, p, col, row, d, forward, k) >= m
  {
    if k > 0 {
      if m <= k - 1 {
        ReachCovers(g, p, col, row, d, forward, k - 1, m);
      } else {
        ReachCovers(g, p, col, row, d, forward, k - 1, m - 1);
        assert OwnsAt(g, p, col, row, d, Signed(forward, k));
      }
    }
  }

  lemma WinsGivesRun(g: Grid, p: Player, col: int, row: int)
    requires Valid(g) && Wins(g, p, col, row)
    ensures RunOfFour(g, p, col, row)
  {
    var d: Direction, i: int :| 0 <= i < 4 && WindowFull(g, p, col, row, d, i);
    assert OwnsAt(g, p, col, row, d, 0);
    assert ProbeCol(d, col, 0) == col && ProbeRow(d, row, 0) == row;
    forall j | 1 <= j <= 3 - i
      ensures OwnsAt(g, p, col, row, d, Signed(true, j))
    {
      assert Signed(true, j) == j;
    }
    forall j | 1 <= j <= i
      ensures OwnsAt(g, p, col, row, d, Signed(false, j))
    {
      assert Signed(false, j) == -j;
    }
    ReachCovers(g, p, col, row, d, true, 3, 3 - i);
    ReachCovers(g, p, col, row, d, false, 3, i);
  }

  /** Runs of `a` forward and `b` backward cells, with `a + b >= 3`, cover a whole window. */
  lemma RunCoversWindow(g: Grid, p: Player, col: int, row: int, d: Direction)
    requires Valid(g) && At(g, col, row) == Disc(p)
    requires Reach(g, p, col, row, d, true, 3) + Reach(g, p, col, row, d, false, 3) >= 3
    ensures WindowFull(g, p, col, row, d, if Reach(g, p, col, row, d, false, 3) >= 3 then 3
                                          else Reach(g, p, col, row, d, false, 3))
  {
    var a := Reach(g, p, col, row, d, true, 3);
    var b := Reach(g, p, col, row, d, false, 3);
    var i: int := if b >= 3 then 3 else b;
    forall x: int | -i <= x <= 3 - i
      ensures OwnsAt(g, p, col, row, d, x)
    {
      if x < 0 {
        assert Signed(false, -x) == x;
        assert 1 <= -x <= b;
      } else if x > 0 {
        assert Signed(true, x) == x;
        assert 1 <= x <= a;
      } else {
        assert ProbeCol(d, col, 0) == col && ProbeRow(d, row, 0) == row;
      }
    }
  }

  lemma RunGivesWin(g: Grid, p: Player, col: int, row: int)
    requires Valid(g) && RunOfFour(g, p, col, row)
    ensures Wins(g, p, col, row)
  {
    var d: Direction :| Reach(g, p, col, row, d, true, 3) + Reach(g, p, col, row, d, false, 3) >= 3;
    RunCoversWindow(g, p, col, row, d);
    var b := Reach(g, p, col, row, d, false, 3);
    var i: int := if b >= 3 then 3 else b;
    assert 0 <= i < 4 && WindowFull(g, p, col, row, d, i);
  }

  /**
   * The row a token dropped into column `col` lands in: scanning rows
   * `below - 1` down to 0, the first that reads `Empty`.
   */
  function LowestEmpty(g: Grid, col: int, below: nat): (r: Option<nat>)
    requires Valid(g)
    ensures r.Some? ==> r.value < below && At(g, col, r.value) == Empty
    ensures r.Some? ==> forall row :: r.value < row < below ==> At(g, col, row) != Empty
    ensures r.None? ==> forall row :: 0 <= row < below ==> At(g, col, row) != Empty
  {
    if below == 0 then None
    else if At(g, col, below - 1) == Empty then Some(below - 1)
    else LowestEmpty(g, col, below - 1)
  }

  /** Every in-grid cell of column `col` holds a token. */
  predicate ColumnFull(g: Grid, col: int)
    requires Valid(g)
  {
    forall row :: 0 <= row < g.rows ==> At(g, col, row) != Empty
  }
}
