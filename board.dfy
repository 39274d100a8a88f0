/** The Connect-Four board as a value: six rows of seven cells, row 0 at the
    top and row 5 at the bottom, and the drop of a piece into a column. */
module Board {

  /** A cell of the board; the source stores " ", "X" (the human) and "O" (the computer). */
  datatype Cell = Empty | X | O

  /** A 6x7 grid of cells, indexed g[row][column]. */
  type Grid = g: seq<seq<Cell>> | |g| == 6 && forall i | 0 <= i < 6 :: |g[i]| == 7
    witness seq(6, _ => seq(7, _ => Empty))

  /** The piece of a side: true is the computer ("O"), false the human ("X"). */
  function Piece(p: bool): (c: Cell)
    ensures c != Empty && (c == O <==> p)
  {
    if p then O else X
  }

  /** True iff (r, c) lies on the board and holds p's piece. */
  ghost predicate Matches(g: Grid, p: bool, r: int, c: int)
  {
    0 <= r < 6 && 0 <= c < 7 && g[r][c] == Piece(p)
  }

  /** The board the game starts from. */
  ghost function EmptyGrid(): (g: Grid)
    ensures forall r, c | 0 <= r < 6 && 0 <= c < 7 :: g[r][c] == Empty
  {
    seq(6, _ => seq(7, _ => Empty))
  }

  /** No floating pieces: every occupied cell above the bottom row stands on an occupied cell. */
  ghost predicate Settled(g: Grid)
  {
    forall r, c {:trigger g[r][c]} | 0 <= r < 5 && 0 <= c < 7 :: g[r][c] != Empty ==> g[r + 1][c] != Empty
  }

  /** The row a piece dropped into column c lands in when the scan starts at row r and
      moves upward, or -1 when rows r..0 of the column are all occupied. */
  ghost function DropRow(g: Grid, c: nat, r: int): (row: int)
    requires c < 7 && -1 <= r < 6
    ensures -1 <= row <= r
    decreases r + 1
  {
    if r < 0 then -1
    else if g[r][c] == Empty then r
    else DropRow(g, c, r - 1)
  }

  /** The board after p drops a piece into column c, scanning rows r..0 upward for the
      first empty cell (unchanged when there is none). */
  ghost function DropFrom(g: Grid, c: nat, p: bool, r: int): Grid
    requires c < 7 && -1 <= r < 6
    decreases r + 1
  {
    if r < 0 then g
    else if g[r][c] == Empty then g[r := g[r][c := Piece(p)]]
    else DropFrom(g, c, p, r - 1)
  }

  /** The board after p drops a piece into column c (unchanged when the column has no empty cell). */
  ghost function Drop(g: Grid, c: nat, p: bool): Grid
    requires c < 7
  {
    DropFrom(g, c, p, 5)
  }

  /** The scan writes p's piece into the cell DropRow finds. */
  lemma {:induction false} DropFromRow(g: Grid, c: nat, p: bool, r: int)
    requires c < 7 && -1 <= r < 6
    ensures var row := DropRow(g, c, r);
      DropFrom(g, c, p, r) == if row < 0 then g else g[row := g[row][c := Piece(p)]]
    decreases r + 1
  {
    if r >= 0 && g[r][c] != Empty {
      DropFromRow(g, c, p, r - 1);
    }
  }

  /** DropRow finds the empty cell with the largest row index at or above r, and -1 exactly when there is none. */
  lemma {:induction false} DropRowLowestEmpty(g: Grid, c: nat, r: int)
    requires c < 7 && -1 <= r < 6
    ensures var row := DropRow(g, c, r);
      (row == -1 <==> forall k | 0 <= k <= r :: g[k][c] != Empty) &&
      (row >= 0 ==> g[row][c] == Empty && forall k | row < k <= r :: g[k][c] != Empty)
    decreases r + 1
  {
    if r >= 0 && g[r][c] != Empty {
      DropRowLowestEmpty(g, c, r - 1);
    }
  }

  /** Dropping writes p's piece into the lowest empty cell of column c and nothing else;
      a column without an empty cell leaves the board as it was. */
  lemma DropPlacesLowest(g: Grid, c: nat, p: bool)
    requires c < 7
    ensures (forall k | 0 <= k < 6 :: g[k][c] != Empty) ==> Drop(g, c, p) == g
    ensures forall row | 0 <= row < 6 && g[row][c] == Empty && (forall k | row < k < 6 :: g[k][c] != Empty) ::
      Drop(g, c, p)[row][c] == Piece(p) &&
      forall r, c' | 0 <= r < 6 && 0 <= c' < 7 && (r, c') != (row, c) :: Drop(g, c, p)[r][c'] == g[r][c']
  {
    DropRowLowestEmpty(g, c, 5);
    DropFromRow(g, c, p, 5);
    forall row | 0 <= row < 6 && g[row][c] == Empty && (forall k | row < k < 6 :: g[k][c] != Empty)
      ensures DropRow(g, c, 5) == row
    {
    }
  }

  /** On a settled board, a column is full (its top cell occupied) exactly when a drop
      into it finds no empty cell. */
  lemma FullTopMeansNoDrop(g: Grid, c: nat)
    requires c < 7 && Settled(g)
    ensures g[0][c] != Empty <==> DropRow(g, c, 5) == -1
  {
    DropRowLowestEmpty(g, c, 5);
    if g[0][c] != Empty {
      ColumnFullFrom(g, c, 0);
    }
  }

  /** On a settled board an occupied cell has only occupied cells below it. */
  lemma {:induction false} ColumnFullFrom(g: Grid, c: nat, r: nat)
    requires c < 7 && r < 6 && Settled(g) && g[r][c] != Empty
    ensures forall k | r <= k < 6 :: g[k][c] != Empty
    decreases 6 - r
  {
    if r < 5 {
      ColumnFullFrom(g, c, r + 1);
    }
  }

  /** The starting board has no floating pieces. */
  lemma EmptyGridSettled()
    ensures Settled(EmptyGrid())
  {
  }

  /** On a settled board the top cell of a column is occupied exactly when every cell of it is. */
  lemma FullColumnTop(g: Grid, c: nat)
    requires c < 7 && Settled(g)
    ensures g[0][c] != Empty <==> forall r | 0 <= r < 6 :: g[r][c] != Empty
  {
    if g[0][c] != Empty {
      ColumnFullFrom(g, c, 0);
    }
  }

  /** Dropping a piece keeps a settled board settled. */
  lemma DropKeepsSettled(g: Grid, c: nat, p: bool)
    requires c < 7 && Settled(g)
    ensures Settled(Drop(g, c, p))
  {
    DropRowLowestEmpty(g, c, 5);
    DropFromRow(g, c, p, 5);
    var row := DropRow(g, c, 5);
    if row >= 0 {
      var h := Drop(g, c, p);
      forall r, c' {:trigger h[r][c']} | 0 <= r < 5 && 0 <= c' < 7 && h[r][c'] != Empty
        ensures h[r + 1][c'] != Empty
      {
        if c' == c && r == row {
          assert g[r + 1][c] != Empty;
        }
      }
    }
  }
}
