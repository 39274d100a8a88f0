/** The game engine: the live board and side flag, and every operation of the engine
    as the nested loops it is, each proved equal to its specification over grids. */
module Engine {
  import opened Board
  import opened Lines
  import opened Search

  /** The grid held by a 6x7 array. */
  ghost function GridOf(b: array2<Cell>): Grid
    reads b
    requires b.Length0 == 6 && b.Length1 == 7
  {
    seq(6, i requires 0 <= i < 6 reads b => seq(7, j requires 0 <= j < 7 reads b => b[i, j]))
  }

  /** A search state: null stands for a column that could not be played. */
  ghost function StateOf(s: array2?<Cell>): Option<Grid>
    reads s
    requires s != null ==> s.Length0 == 6 && s.Length1 == 7
  {
    if s == null then None else Some(GridOf(s))
  }

  class Connect4 {
    /** The live board, row 0 at the top. */
    var board: array2<Cell>
    /** Whose turn it is: false is the human ("X"), true the computer ("O"). */
    var player: bool

    /** The live board is 6x7 and has no floating pieces. */
    ghost predicate Valid()
      reads this, board
    {
      board.Length0 == 6 && board.Length1 == 7 && Settled(GridOf(board))
    }

    /** A new game: an empty board and the human to move. */
    constructor ()
      ensures Valid() && fresh(board) && !player
      ensures GridOf(board) == EmptyGrid()
    {
      board := new Cell[6, 7];
      player := false;
      new;
      FillBoard();
    }

    /** fillBoard: every cell of the live board becomes empty. */
    method FillBoard()
      requires board.Length0 == 6 && board.Length1 == 7
      modifies board
      ensures Valid() && GridOf(board) == EmptyGrid()
    {
      var i := 0;
      while i < board.Length0
        invariant 0 <= i <= 6
        invariant forall r, c | 0 <= r < i && 0 <= c < 7 :: board[r, c] == Empty
      {
        var j := 0;
        while j < board.Length1
          invariant 0 <= j <= 7
          invariant forall r, c | 0 <= r < i && 0 <= c < 7 :: board[r, c] == Empty
          invariant forall c | 0 <= c < j :: board[i, c] == Empty
        {
          board[i, j] := Empty;
          j := j + 1;
        }
        i := i + 1;
      }
      assert forall r | 0 <= r < 6 :: GridOf(board)[r] == EmptyGrid()[r];
      EmptyGridSettled();
    }

    /** filledColumnCheck: the column's top cell on the live board is occupied; since the live
        board has no floating pieces, that is exactly when the column has no empty cell. */
    method FilledColumnCheck(column: int) returns (full: bool)
      requires Valid() && 0 <= column < 7
      ensures full <==> GridOf(board)[0][column] != Empty
      ensures full <==> forall r | 0 <= r < 6 :: GridOf(board)[r][column] != Empty
    {
      FullColumnTop(GridOf(board), column);
      if board[0, column] != Empty {
        return true;
      }
      return false;
    }

    /** placePiece: drop p's piece into column of the live board. */
    method PlacePiece(column: int, p: bool)
      requires Valid() && 0 <= column < 7
      modifies board
      ensures Valid() && GridOf(board) == Drop(old(GridOf(board)), column, p)
    {
      ghost var g := GridOf(board);
      DropKeepsSettled(g, column, p);
      var row := 5;
      while row > -1
        invariant -1 <= row <= 5
        invariant GridOf(board) == g
        invariant DropFrom(g, column, p, row) == Drop(g, column, p)
      {
        if board[row, column] == Empty {
          board[row, column] := Piece(p);
          assert forall r | 0 <= r < 6 :: GridOf(board)[r] == Drop(g, column, p)[r];
          break;
        }
        row := row - 1;
      }
    }

    /** placeTmpPiece: drop p's piece into column of the given array, which is returned. */
    method PlaceTmpPiece(column: int, p: bool, b: array2<Cell>) returns (r: array2<Cell>)
      requires b.Length0 == 6 && b.Length1 == 7 && 0 <= column < 7
      modifies b
      ensures r == b
      ensures GridOf(b) == Drop(old(GridOf(b)), column, p)
    {
      ghost var g := GridOf(b);
      var row := 5;
      while row > -1
        invariant -1 <= row <= 5
        invariant GridOf(b) == g
        invariant DropFrom(g, column, p, row) == Drop(g, column, p)
      {
        if b[row, column] == Empty {
          b[row, column] := Piece(p);
          assert forall k | 0 <= k < 6 :: GridOf(b)[k] == Drop(g, column, p)[k];
          break;
        }
        row := row - 1;
      }
      return b;
    }

    /** copyArray: a fresh array holding the same grid. */
    method CopyArray(b: array2<Cell>) returns (tmpBoard: array2<Cell>)
      requires b.Length0 == 6 && b.Length1 == 7
      ensures fresh(tmpBoard) && tmpBoard.Length0 == 6 && tmpBoard.Length1 == 7
      ensures GridOf(tmpBoard) == GridOf(b)
    {
      tmpBoard := new Cell[6, 7];
      var i := 0;
      while i < b.Length0
        invariant 0 <= i <= 6
        invariant forall r, c | 0 <= r < i && 0 <= c < 7 :: tmpBoard[r, c] == b[r, c]
      {
        var j := 0;
        while j < b.Length1
          invariant 0 <= j <= 7
          invariant forall r, c | 0 <= r < i && 0 <= c < 7 :: tmpBoard[r, c] == b[r, c]
          invariant forall c | 0 <= c < j :: tmpBoard[i, c] == b[i, c]
        {
          tmpBoard[i, j] := b[i, j];
          j := j + 1;
        }
        i := i + 1;
      }
      assert forall r | 0 <= r < 6 :: GridOf(tmpBoard)[r] == GridOf(b)[r];
    }

    /** The body of getPossibleStates' loop for one column: null when the live board's
        column is full, otherwise a fresh copy of b with p's piece dropped into that column. */
    method PossibleState(b: array2<Cell>, p: bool, column: int) returns (state: array2?<Cell>)
      requires Valid() && b.Length0 == 6 && b.Length1 == 7 && 0 <= column < 7
      ensures state != null ==> fresh(state) && state.Length0 == 6 && state.Length1 == 7
      ensures StateOf(state) == PossibleStates(GridOf(board), GridOf(b), p)[column]
    {
      var tmpBoard := CopyArray(b);
      var full := FilledColumnCheck(column);
      if !full {
        state := PlaceTmpPiece(column, p, tmpBoard);
      } else {
        state := null;
      }
    }

    /** getPossibleStates: one entry per column, null where the live board's column is full,
        otherwise a fresh copy of b with p's piece dropped into that column; b itself is not modified. */
    method GetPossibleStates(b: array2<Cell>, p: bool) returns (possibleStates: seq<array2?<Cell>>)
      requires Valid() && b.Length0 == 6 && b.Length1 == 7
      ensures |possibleStates| == 7
      ensures forall k | 0 <= k < 7 && possibleStates[k] != null ::
        fresh(possibleStates[k]) && possibleStates[k].Length0 == 6 && possibleStates[k].Length1 == 7
      ensures forall k | 0 <= k < 7 :: StateOf(possibleStates[k]) == PossibleStates(GridOf(board), GridOf(b), p)[k]
      ensures forall k, k' | 0 <= k < k' < 7 && possibleStates[k] != null :: possibleStates[k] != possibleStates[k']
    {
      ghost var kids := PossibleStates(GridOf(board), GridOf(b), p);
      possibleStates := [];
      var i := 0;
      while i < 7
        invariant 0 <= i <= 7 && |possibleStates| == i
        invariant forall k | 0 <= k < i && possibleStates[k] != null ::
          fresh(possibleStates[k]) && allocated(possibleStates[k]) && possibleStates[k].Length0 == 6 && possibleStates[k].Length1 == 7
        invariant forall k | 0 <= k < i :: StateOf(possibleStates[k]) == kids[k]
        invariant forall k, k' | 0 <= k < k' < i && possibleStates[k] != null :: possibleStates[k] != possibleStates[k']
      {
        var state := PossibleState(b, p, i);
        possibleStates := possibleStates + [state];
        i := i + 1;
      }
    }

    // ----- Win detection ---------------------------------------------------

    /** checkForHorizontal: some row holds four of p's pieces side by side. */
    method CheckForHorizontal(p: bool, b: array2<Cell>) returns (won: bool)
      requires b.Length0 == 6 && b.Length1 == 7
      ensures won == FourInDir(GridOf(b), p, Horizontal)
    {
      ghost var g := GridOf(b);
      var count: int;
      won := false;
      var i := 5;
      while i >= 0
        invariant -1 <= i <= 5
        invariant won <==> exists i', j' | i < i' < 6 && 0 <= j' < 4 :: Four(g, p, Horizontal, i', j')
      {
        var j := 0;
        while j < 4
          invariant 0 <= j <= 4
          invariant won <==> (exists i', j' | i < i' < 6 && 0 <= j' < 4 :: Four(g, p, Horizontal, i', j')) ||
                             (exists j' | 0 <= j' < j :: Four(g, p, Horizontal, i, j'))
        {
          ghost var before := won;
          label outerloop: {
            count := 0;
            var k := j;
            while k < j + 4
              invariant j <= k < j + 4 && count == k - j
              invariant forall t | 0 <= t < count :: OnLine(g, p, Horizontal, i, j, t)
              invariant won == before
            {
              assert OnLine(g, p, Horizontal, i, j, k - j) <==> b[i, k] == Piece(p);
              if b[i, k] == Piece(p) {
                count := count + 1;
                if count == 4 {
                  won := true;
                  assert Four(g, p, Horizontal, i, j);
                  break;
                }
              } else {
                assert !Four(g, p, Horizontal, i, j);
                break outerloop;
              }
              k := k + 1;
            }
          }
          j := j + 1;
        }
        i := i - 1;
      }
      forall i', j' | 0 <= i' < 6 && 0 <= j' < 7 && Four(g, p, Horizontal, i', j') ensures j' < 4 {
        FourOnBoard(g, p, Horizontal, i', j');
      }
    }

    /** checkForVertical: some column holds four of p's pieces one above the other. */
    method CheckForVertical(p: bool, b: array2<Cell>) returns (won: bool)
      requires b.Length0 == 6 && b.Length1 == 7
      ensures won == FourInDir(GridOf(b), p, Vertical)
    {
      ghost var g := GridOf(b);
      var count: int;
      won := false;
      var i := 5;
      while i > 2
        invariant 2 <= i <= 5
        invariant won <==> exists i', j' | i < i' < 6 && 0 <= j' < 7 :: Four(g, p, Vertical, i', j')
      {
        var j := 0;
        while j <= b.Length0
          invariant 0 <= j <= 7
          invariant won <==> (exists i', j' | i < i' < 6 && 0 <= j' < 7 :: Four(g, p, Vertical, i', j')) ||
                             (exists j' | 0 <= j' < j :: Four(g, p, Vertical, i, j'))
        {
          ghost var before := won;
          label outerloop: {
            count := 0;
            var k := i;
            while k > i - 4
              invariant i - 4 < k <= i && count == i - k
              invariant forall t | 0 <= t < count :: OnLine(g, p, Vertical, i, j, t)
              invariant won == before
            {
              assert OnLine(g, p, Vertical, i, j, i - k) <==> b[k, j] == Piece(p);
              if b[k, j] == Piece(p) {
                count := count + 1;
                if count == 4 {
                  won := true;
                  assert Four(g, p, Vertical, i, j);
                  break;
                }
              } else {
                assert !Four(g, p, Vertical, i, j);
                break outerloop;
              }
              k := k - 1;
            }
          }
          j := j + 1;
        }
        i := i - 1;
      }
      forall i', j' | 0 <= i' < 6 && 0 <= j' < 7 && Four(g, p, Vertical, i', j') ensures i' > 2 {
        FourOnBoard(g, p, Vertical, i', j');
      }
    }

    /** checkForDiagonal: a win on either diagonal. */
    method CheckForDiagonal(p: bool, b: array2<Cell>) returns (won: bool)
      requires b.Length0 == 6 && b.Length1 == 7
      ensures won == (FourInDir(GridOf(b), p, DiagRight) || FourInDir(GridOf(b), p, DiagLeft))
    {
      var right := CheckForDiagonalRight(p, b);
      var left := CheckForDiagonalLeft(p, b);
      if right || left {
        return true;
      }
      return false;
    }

    /** checkForDiagonalRight: four of p's pieces on a line going up and to the right. */
    method CheckForDiagonalRight(p: bool, b: array2<Cell>) returns (won: bool)
      requires b.Length0 == 6 && b.Length1 == 7
      ensures won == FourInDir(GridOf(b), p, DiagRight)
    {
      ghost var g := GridOf(b);
      var count: int;
      won := false;
      var i := 5;
      while i >= 0
        invariant -1 <= i <= 5
        invariant won <==> exists i', j' | i < i' < 6 && 0 <= j' < 4 :: Four(g, p, DiagRight, i', j')
      {
        var j := 0;
        while j < 4
          invariant 0 <= j <= 4
          invariant won <==> (exists i', j' | i < i' < 6 && 0 <= j' < 4 :: Four(g, p, DiagRight, i', j')) ||
                             (exists j' | 0 <= j' < j :: Four(g, p, DiagRight, i, j'))
        {
          ghost var before := won;
          label outerloop: {
            count := 0;
            var k := j;
            while k < j + 4
              invariant j <= k < j + 4 && count == k - j
              invariant forall t | 0 <= t < count :: OnLine(g, p, DiagRight, i, j, t)
              invariant won == before
            {
              assert OnLine(g, p, DiagRight, i, j, k - j) <==> (i - count >= 0 && b[i - count, k] == Piece(p));
              if i - count >= 0 && b[i - count, k] == Piece(p) {
                count := count + 1;
                if count == 4 {
                  won := true;
                  assert Four(g, p, DiagRight, i, j);
                  break;
                }
              } else {
                assert !Four(g, p, DiagRight, i, j);
                break outerloop;
              }
              k := k + 1;
            }
          }
          j := j + 1;
        }
        i := i - 1;
      }
      forall i', j' | 0 <= i' < 6 && 0 <= j' < 7 && Four(g, p, DiagRight, i', j') ensures j' < 4 {
        FourOnBoard(g, p, DiagRight, i', j');
      }
    }

    /** checkForDiagonalLeft: four of p's pieces on a line going up and to the left. */
    method CheckForDiagonalLeft(p: bool, b: array2<Cell>) returns (won: bool)
      requires b.Length0 == 6 && b.Length1 == 7
      ensures won == FourInDir(GridOf(b), p, DiagLeft)
    {
      ghost var g := GridOf(b);
      var count: int;
      won := false;
      var i := 5;
      while i >= 0
        invariant -1 <= i <= 5
        invariant won <==> exists i', j' | i < i' < 6 && 2 < j' < 7 :: Four(g, p, DiagLeft, i', j')
      {
        var j := 6;
        while j > 2
          invariant 2 <= j <= 6
          invariant won <==> (exists i', j' | i < i' < 6 && 2 < j' < 7 :: Four(g, p, DiagLeft, i', j')) ||
                             (exists j' | j < j' < 7 :: Four(g, p, DiagLeft, i, j'))
        {
          ghost var before := won;
          label outerloop: {
            count := 0;
            var k := j;
            while k > j - 4
              invariant j - 4 < k <= j && count == j - k
              invariant forall t | 0 <= t < count :: OnLine(g, p, DiagLeft, i, j, t)
              invariant won == before
            {
              assert OnLine(g, p, DiagLeft, i, j, j - k) <==> (i - count >= 0 && b[i - count, k] == Piece(p));
              if i - count >= 0 && b[i - count, k] == Piece(p) {
                count := count + 1;
                if count == 4 {
                  won := true;
                  assert Four(g, p, DiagLeft, i, j);
                  break;
                }
              } else {
                assert !Four(g, p, DiagLeft, i, j);
                break outerloop;
              }
              k := k - 1;
            }
          }
          j := j - 1;
        }
        i := i - 1;
      }
      forall i', j' | 0 <= i' < 6 && 0 <= j' < 7 && Four(g, p, DiagLeft, i', j') ensures j' > 2 {
        FourOnBoard(g, p, DiagLeft, i', j');
      }
    }

    /** checkForWin: p has four in a row in some direction. */
    method CheckForWin(p: bool, b: array2<Cell>) returns (won: bool)
      requires b.Length0 == 6 && b.Length1 == 7
      ensures won == FourInARow(GridOf(b), p)
    {
      var horizontal := CheckForHorizontal(p, b);
      var vertical := CheckForVertical(p, b);
      var diagonal := CheckForDiagonal(p, b);
      if horizontal || vertical || diagonal {
        return true;
      }
      return false;
    }

    // ----- Run counting ----------------------------------------------------

    /** The innermost loop of countHorizontal at anchor (i, j): true when the window of
        inARow cells starting there is all p's, detected at the cell that completes it. */
    method HorizontalRunAt(p: bool, b: array2<Cell>, inARow: int, i: int, j: int) returns (found: bool)
      requires b.Length0 == 6 && b.Length1 == 7
      requires Examined(Horizontal, inARow, i, j)
      ensures found <==> Hit(GridOf(b), p, inARow, Horizontal, i, j)
    {
      ghost var g := GridOf(b);
      found := false;
      var count := 0;
      var k := j;
      while k < j + inARow
        invariant j <= k
        invariant inARow >= 1 ==> k <= j + inARow && count < inARow
        invariant inARow < 1 ==> k == j
        invariant 0 <= count <= k - j
        invariant count == k - j <==> RunPrefix(g, p, Horizontal, i, j, k - j)
      {
        assert OnLine(g, p, Horizontal, i, j, k - j) <==> b[i, k] == Piece(p);
        RunStep(g, p, Horizontal, i, j, k - j, count, b[i, k] == Piece(p));
        if b[i, k] == Piece(p) {
          count := count + 1;
          if count == inARow {
            found := true;
            break;
          }
        }
        k := k + 1;
      }
    }

    /** countHorizontal: the number of rows holding an examined run of inARow of p's pieces;
        the scan of a row stops at its first run. */
    method CountHorizontal(p: bool, b: array2<Cell>, inARow: int) returns (value: int)
      requires b.Length0 == 6 && b.Length1 == 7
      ensures value == HorizontalCount(GridOf(b), p, inARow)
    {
      ghost var g := GridOf(b);
      value := 0;
      var i := 5;
      while i >= 0
        invariant -1 <= i <= 5
        invariant value == RowsWithHit(g, p, inARow, Horizontal, i + 1)
      {
        label outerloop: {
          var j := 0;
          while j < 7
            invariant 0 <= j <= 7
            invariant forall c | 0 <= c < j :: !Hit(g, p, inARow, Horizontal, i, c)
            invariant value == RowsWithHit(g, p, inARow, Horizontal, i + 1)
          {
            if j + inARow > 6 {
              assert !RowHasHit(g, p, inARow, Horizontal, i);
              break outerloop;
            }
            var found := HorizontalRunAt(p, b, inARow, i, j);
            if found {
              value := value + 1;
              j := j + inARow;
              break outerloop;
            }
            j := j + 1;
          }
          assert !RowHasHit(g, p, inARow, Horizontal, i);
        }
        i := i - 1;
      }
      assert i + 1 == 0;
    }

    /** The innermost loop of countVertical at anchor (i, j): true when the inARow cells
        from row i upward in column j are all p's. */
    method VerticalRunAt(p: bool, b: array2<Cell>, inARow: int, i: int, j: int) returns (found: bool)
      requires b.Length0 == 6 && b.Length1 == 7
      requires Examined(Vertical, inARow, i, j)
      ensures found <==> Hit(GridOf(b), p, inARow, Vertical, i, j)
    {
      ghost var g := GridOf(b);
      found := false;
      var count := 0;
      var k := i;
      while k > i - inARow
        invariant k <= i
        invariant inARow >= 1 ==> i - inARow <= k
        invariant inARow < 1 ==> k == i
        invariant 0 <= count <= i - k
        invariant count == i - k <==> RunPrefix(g, p, Vertical, i, j, i - k)
        invariant found <==> inARow >= 1 && count == inARow
      {
        assert OnLine(g, p, Vertical, i, j, i - k) <==> b[k, j] == Piece(p);
        RunStep(g, p, Vertical, i, j, i - k, count, b[k, j] == Piece(p));
        if b[k, j] == Piece(p) {
          count := count + 1;
          if count == inARow {
            found := true;
          }
        }
        k := k - 1;
      }
    }

    /** The j-loop of countVertical for row i: the number of columns where a vertical run
        of inARow of p's pieces has its lowest cell in row i. */
    method VerticalRow(p: bool, b: array2<Cell>, inARow: int, i: int, ghost g: Grid) returns (n: int)
      requires b.Length0 == 6 && b.Length1 == 7 && g == GridOf(b)
      requires 0 <= i < 6 && i - inARow >= 0
      ensures n == RowHits(g, p, inARow, Vertical, i, 0)
    {
      n := 0;
      var j := 0;
      while j < 7
        invariant 0 <= j <= 7
        invariant n + RowHits(g, p, inARow, Vertical, i, j) == RowHits(g, p, inARow, Vertical, i, 0)
      {
        var found := VerticalRunAt(p, b, inARow, i, j);
        if found {
          n := n + 1;
        }
        j := j + 1;
      }
    }

    /** countVertical: the number of examined vertical runs of inARow of p's pieces, overlapping
        runs counted separately; rows below inARow are never used as a run's lowest cell. */
    method CountVertical(p: bool, b: array2<Cell>, inARow: int) returns (value: int)
      requires b.Length0 == 6 && b.Length1 == 7
      ensures value == WindowCount(GridOf(b), p, inARow, Vertical)
    {
      ghost var g := GridOf(b);
      value := 0;
      var i := 5;
      while i >= 0
        invariant -1 <= i <= 5
        invariant value == Rows(g, p, inARow, Vertical, i + 1)
      {
        if i - inARow < 0 {
          break;
        }
        var n := VerticalRow(p, b, inARow, i, g);
        value := value + n;
        i := i - 1;
      }
      if i >= 0 {
        NoRowsBetween(g, p, inARow, Vertical, 0, i + 1);
      } else {
        assert i + 1 == 0;
      }
    }

    /** countDiagonal: runs on both diagonals. */
    method CountDiagonal(p: bool, b: array2<Cell>, inARow: int) returns (value: int)
      requires b.Length0 == 6 && b.Length1 == 7
      ensures value == WindowCount(GridOf(b), p, inARow, DiagRight) + WindowCount(GridOf(b), p, inARow, DiagLeft)
    {
      var right := CountDiagonalRight(p, b, inARow);
      var left := CountDiagonalLeft(p, b, inARow);
      value := right + left;
    }

    /** The innermost loop of countDiagonalRight at anchor (i, j): the cell tested next is
        count rows up, so after a miss the scan never completes the window. */
    method DiagonalRightRunAt(p: bool, b: array2<Cell>, inARow: int, i: int, j: int) returns (found: bool)
      requires b.Length0 == 6 && b.Length1 == 7
      requires Examined(DiagRight, inARow, i, j)
      ensures found <==> Hit(GridOf(b), p, inARow, DiagRight, i, j)
    {
      ghost var g := GridOf(b);
      found := false;
      var count := 0;
      var k := j;
      while k < j + inARow
        invariant j <= k
        invariant inARow >= 1 ==> k <= j + inARow
        invariant inARow < 1 ==> k == j
        invariant 0 <= count <= k - j
        invariant count == k - j <==> RunPrefix(g, p, DiagRight, i, j, k - j)
        invariant found <==> inARow >= 1 && count == inARow
      {
        assert count == k - j ==>
          (OnLine(g, p, DiagRight, i, j, k - j) <==> (i - count >= 0 && b[i - count, k] == Piece(p)));
        RunStep(g, p, DiagRight, i, j, k - j, count, i - count >= 0 && b[i - count, k] == Piece(p));
        if i - count >= 0 && b[i - count, k] == Piece(p) {
          count := count + 1;
          if count == inARow {
            found := true;
          }
        }
        k := k + 1;
      }
    }

    /** The j-loop of countDiagonalRight for row i, which stops at the first anchor whose
        window would leave the board. */
    method DiagonalRightRow(p: bool, b: array2<Cell>, inARow: int, i: int, ghost g: Grid) returns (n: int)
      requires b.Length0 == 6 && b.Length1 == 7 && g == GridOf(b)
      requires 0 <= i < 6
      ensures n == RowHits(g, p, inARow, DiagRight, i, 0)
    {
      n := 0;
      var j := 0;
      while j < 7
        invariant 0 <= j <= 7
        invariant n + RowHits(g, p, inARow, DiagRight, i, j) == RowHits(g, p, inARow, DiagRight, i, 0)
      {
        if j + inARow > 6 {
          NoHitsBetween(g, p, inARow, DiagRight, i, j, 7);
          return;
        }
        var found := DiagonalRightRunAt(p, b, inARow, i, j);
        if found {
          n := n + 1;
        }
        j := j + 1;
      }
    }

    /** countDiagonalRight: the number of examined up-right runs of inARow of p's pieces,
        overlapping runs counted separately. */
    method CountDiagonalRight(p: bool, b: array2<Cell>, inARow: int) returns (value: int)
      requires b.Length0 == 6 && b.Length1 == 7
      ensures value == WindowCount(GridOf(b), p, inARow, DiagRight)
    {
      ghost var g := GridOf(b);
      value := 0;
      var i := 5;
      while i >= 0
        invariant -1 <= i <= 5
        invariant value == Rows(g, p, inARow, DiagRight, i + 1)
      {
        var n := DiagonalRightRow(p, b, inARow, i, g);
        value := value + n;
        i := i - 1;
      }
    }

    /** The innermost loop of countDiagonalLeft at anchor (i, j), the window running up and to the left. */
    method DiagonalLeftRunAt(p: bool, b: array2<Cell>, inARow: int, i: int, j: int) returns (found: bool)
      requires b.Length0 == 6 && b.Length1 == 7
      requires Examined(DiagLeft, inARow, i, j)
      ensures found <==> Hit(GridOf(b), p, inARow, DiagLeft, i, j)
    {
      ghost var g := GridOf(b);
      found := false;
      var count := 0;
      var k := j;
      while k > j - inARow
        invariant k <= j
        invariant inARow >= 1 ==> j - inARow <= k
        invariant inARow < 1 ==> k == j
        invariant 0 <= count <= j - k
        invariant count == j - k <==> RunPrefix(g, p, DiagLeft, i, j, j - k)
        invariant found <==> inARow >= 1 && count == inARow
      {
        assert count == j - k ==>
          (OnLine(g, p, DiagLeft, i, j, j - k) <==> (i - count >= 0 && b[i - count, k] == Piece(p)));
        RunStep(g, p, DiagLeft, i, j, j - k, count, i - count >= 0 && b[i - count, k] == Piece(p));
        if i - count >= 0 && b[i - count, k] == Piece(p) {
          count := count + 1;
          if count == inARow {
            found := true;
          }
        }
        k := k - 1;
      }
    }

    /** The j-loop of countDiagonalLeft for row i, anchors from column 6 down to column 1,
        stopping at the first anchor whose window would leave the board. */
    method DiagonalLeftRow(p: bool, b: array2<Cell>, inARow: int, i: int, ghost g: Grid) returns (n: int)
      requires b.Length0 == 6 && b.Length1 == 7 && g == GridOf(b)
      requires 0 <= i < 6
      ensures n == RowHits(g, p, inARow, DiagLeft, i, 0)
    {
      n := 0;
      var j := 6;
      while j > 0
        invariant 0 <= j <= 6
        invariant n == RowHits(g, p, inARow, DiagLeft, i, j + 1)
      {
        if j - inARow < 0 {
          NoHitsBetween(g, p, inARow, DiagLeft, i, 0, j + 1);
          return;
        }
        var found := DiagonalLeftRunAt(p, b, inARow, i, j);
        if found {
          n := n + 1;
        }
        j := j - 1;
      }
    }

    /** countDiagonalLeft: the number of examined up-left runs of inARow of p's pieces,
        overlapping runs counted separately. */
    method CountDiagonalLeft(p: bool, b: array2<Cell>, inARow: int) returns (value: int)
      requires b.Length0 == 6 && b.Length1 == 7
      ensures value == WindowCount(GridOf(b), p, inARow, DiagLeft)
    {
      ghost var g := GridOf(b);
      value := 0;
      var i := 5;
      while i >= 0
        invariant -1 <= i <= 5
        invariant value == Rows(g, p, inARow, DiagLeft, i + 1)
      {
        var n := DiagonalLeftRow(p, b, inARow, i, g);
        value := value + n;
        i := i - 1;
      }
    }

    /** countInARow: runs of inARow in all four directions. */
    method CountInARow(p: bool, b: array2<Cell>, inARow: int) returns (value: int)
      requires b.Length0 == 6 && b.Length1 == 7
      ensures value == InARowCount(GridOf(b), p, inARow)
    {
      var horizontal := CountHorizontal(p, b, inARow);
      var vertical := CountVertical(p, b, inARow);
      var diagonal := CountDiagonal(p, b, inARow);
      value := horizontal + vertical + diagonal;
    }

    /** countMiddle: the centre bonus of the "O" cells; the side argument is not used. */
    method CountMiddle(p: bool, b: array2<Cell>) returns (count: int)
      requires b.Length0 == 6 && b.Length1 == 7
      ensures count == MiddleScore(GridOf(b))
    {
      ghost var g := GridOf(b);
      count := 0;
      var i := 5;
      while i >= 3
        invariant 2 <= i <= 5
        invariant count == MiddleRows(g, i + 1)
      {
        var j := 2;
        while j < 5
          invariant 2 <= j <= 5
          invariant count == MiddleRows(g, i + 1) + MiddleCols(g, i, 2) - MiddleCols(g, i, j)
        {
          if b[i, j] == O {
            if i == 5 && j == 3 {
              count := count + 50;
            } else if i == 5 {
              count := count + 30;
            } else if i == 4 {
              count := count + 5;
            } else {
              count := count + 1;
            }
          }
          j := j + 1;
        }
        i := i - 1;
      }
      assert i + 1 == 3;
    }

    // ----- Heuristic and search -------------------------------------------

    /** heuristic: the score of a state for the side in the field `player`;
        the maximizingPlayer argument is not used. */
    method Heuristic(possibleState: array2<Cell>, maximizingPlayer: bool) returns (value: int)
      requires possibleState.Length0 == 6 && possibleState.Length1 == 7
      ensures value == HeuristicValue(player, GridOf(possibleState))
    {
      var aiWins := CheckForWin(player, possibleState);
      if aiWins {
        value := MaxValue;
        return;
      }
      var humanWins := CheckForWin(!player, possibleState);
      if humanWins {
        value := MinValue;
        return;
      }
      var countTwo := CountInARow(player, possibleState, 2);
      countTwo := countTwo * 250;
      var opponentTwo := CountInARow(!player, possibleState, 2);
      opponentTwo := opponentTwo * -10;
      var countThree := CountInARow(player, possibleState, 3);
      countThree := countThree * 1000;
      var opponentThree := CountInARow(!player, possibleState, 3);
      opponentThree := opponentThree * -100;
      value := countThree + countTwo + opponentThree + opponentTwo;
      ghost var g := GridOf(possibleState);
      RunScoreOf(InARowCount(g, player, 3), InARowCount(g, player, 2), InARowCount(g, !player, 3),
                 InARowCount(g, !player, 2), MiddleScore(g), value);
      if value < 30 && value > -30 {
        var middle := CountMiddle(player, possibleState);
        value := value + middle * 10;
      }
    }

    /** minimax: the score of a search state to the given depth; live and s are the
        live board and the state as grids. */
    method Minimax(possibleState: array2?<Cell>, depth: int, maximizingPlayer: bool, ghost live: Grid, ghost s: Option<Grid>)
      returns (value: int)
      requires Valid() && depth >= 0 && live == GridOf(board)
      requires possibleState != null ==> possibleState.Length0 == 6 && possibleState.Length1 == 7
      requires s == StateOf(possibleState)
      ensures value == MinimaxValue(live, player, s, depth, maximizingPlayer)
      decreases depth, 1
    {
      if possibleState == null {
        return MinValue;
      }
      var won := CheckForWin(maximizingPlayer, possibleState);
      if depth == 0 || won {
        value := Heuristic(possibleState, maximizingPlayer);
        return;
      }
      ghost var kids := PossibleStates(live, s.value, maximizingPlayer);
      var childStates := GetPossibleStates(possibleState, maximizingPlayer);
      if maximizingPlayer {
        value := MaxOverChildren(childStates, depth - 1, live, kids);
      } else {
        value := MinOverChildren(childStates, depth - 1, live, kids);
      }
    }

    /** The maximizing loop of minimax: Math.max, from MIN_VALUE, over the scores of the
        present children, each searched with maximizing false. */
    method MaxOverChildren(childStates: seq<array2?<Cell>>, depth: int, ghost live: Grid, ghost kids: seq<Option<Grid>>)
      returns (value: int)
      requires Valid() && depth >= 0 && live == GridOf(board)
      requires |childStates| == 7 && |kids| == 7
      requires forall k | 0 <= k < 7 && childStates[k] != null :: childStates[k].Length0 == 6 && childStates[k].Length1 == 7
      requires forall k | 0 <= k < 7 :: StateOf(childStates[k]) == kids[k]
      ensures value == MaxChildren(live, player, kids, depth, 7)
      decreases depth + 1, 0
    {
      value := MinValue;
      var i := 0;
      while i < |childStates|
        invariant 0 <= i <= 7
        invariant value == MaxChildren(live, player, kids, depth, i)
      {
        if childStates[i] != null {
          var score := Minimax(childStates[i], depth, false, live, kids[i]);
          value := Max(value, score);
        }
        i := i + 1;
      }
    }

    /** The minimizing loop of minimax: Math.min, from MAX_VALUE, over the scores of all
        children, each searched with maximizing true; a null child scores MIN_VALUE. */
    method MinOverChildren(childStates: seq<array2?<Cell>>, depth: int, ghost live: Grid, ghost kids: seq<Option<Grid>>)
      returns (value: int)
      requires Valid() && depth >= 0 && live == GridOf(board)
      requires |childStates| == 7 && |kids| == 7
      requires forall k | 0 <= k < 7 && childStates[k] != null :: childStates[k].Length0 == 6 && childStates[k].Length1 == 7
      requires forall k | 0 <= k < 7 :: StateOf(childStates[k]) == kids[k]
      ensures value == MinChildren(live, player, kids, depth, 7)
      decreases depth + 1, 0
    {
      value := MaxValue;
      var i := 0;
      while i < |childStates|
        invariant 0 <= i <= 7
        invariant value == MinChildren(live, player, kids, depth, i)
      {
        var score := Minimax(childStates[i], depth, true, live, kids[i]);
        value := Min(value, score);
        i := i + 1;
      }
    }

    /** The move-selection loop of play: search each of `player`'s moves on the live board
        with maximizing false and keep the first strictly greatest score; column 0 when no
        score exceeds MIN_VALUE. */
    method ChooseAIMove(depth: int) returns (bestAIMove: int)
      requires Valid() && depth >= 0
      ensures 0 <= bestAIMove < 7
      ensures var scores := RootScores(GridOf(board), player, depth);
        ((forall k | 0 <= k < 7 :: scores[k] <= MinValue) ==> bestAIMove == 0) &&
        ((exists k | 0 <= k < 7 :: scores[k] > MinValue) ==>
           scores[bestAIMove] > MinValue &&
           (forall k | 0 <= k < 7 :: scores[k] <= scores[bestAIMove]) &&
           (forall k | 0 <= k < bestAIMove :: scores[k] < scores[bestAIMove]))
    {
      ghost var live := GridOf(board);
      ghost var kids := PossibleStates(live, live, player);
      ghost var scores := RootScores(live, player, depth);
      var possibleStates := GetPossibleStates(board, player);
      var bestScore := MinValue;
      var minimaxScore: int;
      bestAIMove := 0;
      var i := 0;
      while i < |possibleStates|
        modifies {}
        invariant 0 <= i <= 7
        invariant (bestAIMove, bestScore) == FirstBest(scores, i)
      {
        minimaxScore := Minimax(possibleStates[i], depth, false, live, kids[i]);
        assert minimaxScore == scores[i];
        if minimaxScore > bestScore {
          bestScore := minimaxScore;
          bestAIMove := i;
        }
        i := i + 1;
      }
      FirstBestIsFirstMax(scores, 7);
    }
  }
}
