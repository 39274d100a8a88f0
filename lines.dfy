/** Lines of pieces on a grid: four-in-a-row windows (win detection), the windows
    the run counters examine, the counts they add up to, and the centre bonus. */
module Lines {
  import opened Board

  /** The four scan directions; diagonals run upward (toward row 0). */
  datatype Dir = Horizontal | Vertical | DiagRight | DiagLeft

  /** Row of the t-th cell of the line of direction d anchored at row i. */
  function RowAt(d: Dir, i: int, t: int): int
  {
    if d == Horizontal then i else i - t
  }

  /** Column of the t-th cell of the line of direction d anchored at column j. */
  function ColAt(d: Dir, j: int, t: int): int
  {
    match d
    case Horizontal => j + t
    case Vertical => j
    case DiagRight => j + t
    case DiagLeft => j - t
  }

  /** The t-th cell of the line is on the board and holds p's piece. */
  ghost predicate OnLine(g: Grid, p: bool, d: Dir, i: int, j: int, t: int)
  {
    Matches(g, p, RowAt(d, i, t), ColAt(d, j, t))
  }

  // ----- Win detection ---------------------------------------------------

  /** The 4-cell window of direction d anchored at (i, j) lies on the board and is all p's. */
  ghost predicate Four(g: Grid, p: bool, d: Dir, i: int, j: int)
  {
    forall t | 0 <= t < 4 :: OnLine(g, p, d, i, j, t)
  }

  /** Some window of direction d is four of p's pieces. */
  ghost predicate FourInDir(g: Grid, p: bool, d: Dir)
  {
    exists i, j | 0 <= i < 6 && 0 <= j < 7 :: Four(g, p, d, i, j)
  }

  /** p has four in a row horizontally, vertically or on either diagonal. */
  ghost predicate FourInARow(g: Grid, p: bool)
  {
    FourInDir(g, p, Horizontal) || FourInDir(g, p, Vertical) ||
    FourInDir(g, p, DiagRight) || FourInDir(g, p, DiagLeft)
  }

  /** A full window has its first and last cell on the board, which bounds its anchor. */
  lemma FourOnBoard(g: Grid, p: bool, d: Dir, i: int, j: int)
    requires Four(g, p, d, i, j)
    ensures 0 <= RowAt(d, i, 3) && RowAt(d, i, 0) < 6
    ensures 0 <= ColAt(d, j, 0) < 7 && 0 <= ColAt(d, j, 3) < 7
  {
    assert OnLine(g, p, d, i, j, 0) && OnLine(g, p, d, i, j, 3);
  }

  // ----- Run counting ----------------------------------------------------

  /** The anchors the counting loops examine for runs of n, with their bounds as written:
      horizontal and up-right windows start only at j + n <= 6, up-left windows only at
      1 <= j and n <= j, vertical windows only at n <= i. */
  predicate Examined(d: Dir, n: int, i: int, j: int)
  {
    0 <= i < 6 && 0 <= j < 7 &&
    match d
    case Horizontal => j + n <= 6
    case Vertical => i >= n
    case DiagRight => j + n <= 6
    case DiagLeft => j >= 1 && j >= n
  }

  /** The first m cells of the line of direction d anchored at (i, j) all hold p's piece. */
  ghost predicate RunPrefix(g: Grid, p: bool, d: Dir, i: int, j: int, m: int)
    decreases m
  {
    m <= 0 || (RunPrefix(g, p, d, i, j, m - 1) && OnLine(g, p, d, i, j, m - 1))
  }

  /** RunPrefix says that each of the first m cells is p's. */
  lemma {:induction false} RunPrefixAll(g: Grid, p: bool, d: Dir, i: int, j: int, m: int)
    ensures RunPrefix(g, p, d, i, j, m) <==> forall t | 0 <= t < m :: OnLine(g, p, d, i, j, t)
    decreases m
  {
    if m > 0 {
      RunPrefixAll(g, p, d, i, j, m - 1);
    }
  }

  /** One step of a counting loop: the count of matching cells equals the number of
      cells looked at exactly while the prefix of the line read so far is a run. */
  lemma RunStep(g: Grid, p: bool, d: Dir, i: int, j: int, m: int, count: int, matched: bool)
    requires 0 <= count <= m
    requires count == m <==> RunPrefix(g, p, d, i, j, m)
    requires count == m ==> (matched <==> OnLine(g, p, d, i, j, m))
    ensures var next := if matched then count + 1 else count;
      next == m + 1 <==> RunPrefix(g, p, d, i, j, m + 1)
  {
  }

  /** An examined window of n >= 1 cells of direction d anchored at (i, j), all p's. */
  ghost predicate Hit(g: Grid, p: bool, n: int, d: Dir, i: int, j: int)
  {
    Examined(d, n, i, j) && n >= 1 && RunPrefix(g, p, d, i, j, n)
  }

  /** Number of hits in row i at anchor columns c..6. */
  ghost function RowHits(g: Grid, p: bool, n: int, d: Dir, i: int, c: nat): nat
    requires c <= 7
    decreases 7 - c
  {
    if c == 7 then 0 else (if Hit(g, p, n, d, i, c) then 1 else 0) + RowHits(g, p, n, d, i, c + 1)
  }

  /** Number of hits in rows r..5, overlapping windows counted separately. */
  ghost function Rows(g: Grid, p: bool, n: int, d: Dir, r: nat): nat
    requires r <= 6
    decreases 6 - r
  {
    if r == 6 then 0 else RowHits(g, p, n, d, r, 0) + Rows(g, p, n, d, r + 1)
  }

  /** Row i holds at least one hit. */
  ghost predicate RowHasHit(g: Grid, p: bool, n: int, d: Dir, i: int)
  {
    exists c | 0 <= c < 7 :: Hit(g, p, n, d, i, c)
  }

  /** Number of rows among r..5 that hold a hit: each row adds at most one. */
  ghost function RowsWithHit(g: Grid, p: bool, n: int, d: Dir, r: nat): nat
    requires r <= 6
    decreases 6 - r
  {
    if r == 6 then 0 else (if RowHasHit(g, p, n, d, r) then 1 else 0) + RowsWithHit(g, p, n, d, r + 1)
  }

  /** What countHorizontal computes: the number of rows holding an examined horizontal run of n. */
  ghost function HorizontalCount(g: Grid, p: bool, n: int): nat
  {
    RowsWithHit(g, p, n, Horizontal, 0)
  }

  /** What countVertical, countDiagonalRight and countDiagonalLeft compute: all examined runs of n. */
  ghost function WindowCount(g: Grid, p: bool, n: int, d: Dir): nat
  {
    Rows(g, p, n, d, 0)
  }

  /** What countInARow computes. */
  ghost function InARowCount(g: Grid, p: bool, n: int): nat
  {
    HorizontalCount(g, p, n) + WindowCount(g, p, n, Vertical) +
    WindowCount(g, p, n, DiagRight) + WindowCount(g, p, n, DiagLeft)
  }

  /** A row has at most one hit per anchor column c..6. */
  lemma {:induction false} RowHitsAtMost(g: Grid, p: bool, n: int, d: Dir, i: int, c: nat)
    requires c <= 7
    ensures RowHits(g, p, n, d, i, c) <= 7 - c
    decreases 7 - c
  {
    if c < 7 {
      RowHitsAtMost(g, p, n, d, i, c + 1);
    }
  }

  /** Rows r..5 hold at most one hit per anchor. */
  lemma {:induction false} RowsAtMost(g: Grid, p: bool, n: int, d: Dir, r: nat)
    requires r <= 6
    ensures Rows(g, p, n, d, r) <= 7 * (6 - r)
    decreases 6 - r
  {
    if r < 6 {
      RowHitsAtMost(g, p, n, d, r, 0);
      RowsAtMost(g, p, n, d, r + 1);
    }
  }

  /** Rows r..5 count at most once each in the horizontal count. */
  lemma {:induction false} RowsWithHitAtMost(g: Grid, p: bool, n: int, d: Dir, r: nat)
    requires r <= 6
    ensures RowsWithHit(g, p, n, d, r) <= 6 - r
    decreases 6 - r
  {
    if r < 6 {
      RowsWithHitAtMost(g, p, n, d, r + 1);
    }
  }

  /** The total count is at most 6 rows horizontally plus 42 anchors in each other direction. */
  lemma InARowCountAtMost(g: Grid, p: bool, n: int)
    ensures InARowCount(g, p, n) <= 132
  {
    RowsWithHitAtMost(g, p, n, Horizontal, 0);
    RowsAtMost(g, p, n, Vertical, 0);
    RowsAtMost(g, p, n, DiagRight, 0);
    RowsAtMost(g, p, n, DiagLeft, 0);
  }

  /** Anchor columns without hits add nothing to a row's count. */
  lemma {:induction false} NoHitsBetween(g: Grid, p: bool, n: int, d: Dir, i: int, lo: nat, hi: nat)
    requires lo <= hi <= 7
    requires forall c | lo <= c < hi :: !Hit(g, p, n, d, i, c)
    ensures RowHits(g, p, n, d, i, lo) == RowHits(g, p, n, d, i, hi)
    decreases hi - lo
  {
    if lo < hi {
      NoHitsBetween(g, p, n, d, i, lo + 1, hi);
    }
  }

  /** Rows without hits add nothing to the total. */
  lemma {:induction false} NoRowsBetween(g: Grid, p: bool, n: int, d: Dir, lo: nat, hi: nat)
    requires lo <= hi <= 6
    requires forall r, c | lo <= r < hi && 0 <= c < 7 :: !Hit(g, p, n, d, r, c)
    ensures Rows(g, p, n, d, lo) == Rows(g, p, n, d, hi)
    decreases hi - lo
  {
    if lo < hi {
      NoHitsBetween(g, p, n, d, lo, 0, 7);
      NoRowsBetween(g, p, n, d, lo + 1, hi);
    }
  }

  /** Two grids with the same hits have the same window counts. */
  lemma {:induction false} SameHitsSameRows(g: Grid, g': Grid, p: bool, n: int, d: Dir, r: nat)
    requires r <= 6
    requires forall i, j :: Hit(g, p, n, d, i, j) == Hit(g', p, n, d, i, j)
    ensures Rows(g, p, n, d, r) == Rows(g', p, n, d, r)
    decreases 6 - r
  {
    if r < 6 {
      SameHitsSameRow(g, g', p, n, d, r, 0);
      SameHitsSameRows(g, g', p, n, d, r + 1);
    }
  }

  /** Two grids with the same hits have the same number of rows holding a hit. */
  lemma {:induction false} SameHitsSameRowsWithHit(g: Grid, g': Grid, p: bool, n: int, d: Dir, r: nat)
    requires r <= 6
    requires forall i, j :: Hit(g, p, n, d, i, j) == Hit(g', p, n, d, i, j)
    ensures RowsWithHit(g, p, n, d, r) == RowsWithHit(g', p, n, d, r)
    decreases 6 - r
  {
    if r < 6 {
      SameHitsSameRowHasHit(g, g', p, n, d, r);
      SameHitsSameRowsWithHit(g, g', p, n, d, r + 1);
    }
  }

  lemma SameHitsSameRowHasHit(g: Grid, g': Grid, p: bool, n: int, d: Dir, i: int)
    requires forall i, j :: Hit(g, p, n, d, i, j) == Hit(g', p, n, d, i, j)
    ensures RowHasHit(g, p, n, d, i) == RowHasHit(g', p, n, d, i)
  {
    if RowHasHit(g, p, n, d, i) {
      var c :| 0 <= c < 7 && Hit(g, p, n, d, i, c);
      assert Hit(g', p, n, d, i, c);
    }
    if RowHasHit(g', p, n, d, i) {
      var c :| 0 <= c < 7 && Hit(g', p, n, d, i, c);
      assert Hit(g, p, n, d, i, c);
    }
  }

  lemma {:induction false} SameHitsSameRow(g: Grid, g': Grid, p: bool, n: int, d: Dir, i: int, c: nat)
    requires c <= 7
    requires forall i, j :: Hit(g, p, n, d, i, j) == Hit(g', p, n, d, i, j)
    ensures RowHits(g, p, n, d, i, c) == RowHits(g', p, n, d, i, c)
    decreases 7 - c
  {
    if c < 7 {
      SameHitsSameRow(g, g', p, n, d, i, c + 1);
    }
  }

  /** The cells the counting loops of direction d never look at:
      column 6 for horizontal and up-right runs, column 0 for up-left runs, row 0 for vertical runs. */
  predicate Blind(d: Dir, r: int, c: int)
  {
    match d
    case Horizontal => c == 6
    case Vertical => r == 0
    case DiagRight => c == 6
    case DiagLeft => c == 0
  }

  /** The counts of direction d do not depend on its blind cells: two grids that agree
      everywhere else give the same counts. */
  lemma CountsIgnoreBlindCells(g: Grid, g': Grid, p: bool, n: int, d: Dir)
    requires forall r, c | 0 <= r < 6 && 0 <= c < 7 && !Blind(d, r, c) :: g[r][c] == g'[r][c]
    ensures WindowCount(g, p, n, d) == WindowCount(g', p, n, d)
    ensures d == Horizontal ==> HorizontalCount(g, p, n) == HorizontalCount(g', p, n)
  {
    forall i, j ensures Hit(g, p, n, d, i, j) == Hit(g', p, n, d, i, j) {
      if Examined(d, n, i, j) && n >= 1 {
        RunPrefixAll(g, p, d, i, j, n);
        RunPrefixAll(g', p, d, i, j, n);
        forall t | 0 <= t < n ensures OnLine(g, p, d, i, j, t) == OnLine(g', p, d, i, j, t) {
          var r, c := RowAt(d, i, t), ColAt(d, j, t);
          if 0 <= r < 6 && 0 <= c < 7 {
            assert !Blind(d, r, c);
          }
        }
      }
    }
    SameHitsSameRows(g, g', p, n, d, 0);
    SameHitsSameRowsWithHit(g, g', p, n, d, 0);
  }

  /** On the empty board nobody has four in a row and every count is zero. */
  lemma EmptyGridHasNoRuns(p: bool, n: int)
    ensures !FourInARow(EmptyGrid(), p)
    ensures InARowCount(EmptyGrid(), p, n) == 0
  {
    var e := EmptyGrid();
    forall d, i, j | 0 <= i < 6 && 0 <= j < 7 ensures !Four(e, p, d, i, j) {
      assert !OnLine(e, p, d, i, j, 0);
    }
    forall d, i, j ensures !Hit(e, p, n, d, i, j) {
      if Examined(d, n, i, j) && n >= 1 {
        RunPrefixAll(e, p, d, i, j, n);
        assert !OnLine(e, p, d, i, j, 0);
      }
    }
    forall d ensures Rows(e, p, n, d, 0) == 0 && RowsWithHit(e, p, n, d, 0) == 0 {
      NoRowsBetween(e, p, n, d, 0, 6);
      NoRowsWithHit(e, p, n, d, 0);
    }
  }

  lemma {:induction false} NoRowsWithHit(g: Grid, p: bool, n: int, d: Dir, r: nat)
    requires r <= 6
    requires forall i, j :: !Hit(g, p, n, d, i, j)
    ensures RowsWithHit(g, p, n, d, r) == 0
    decreases 6 - r
  {
    if r < 6 {
      NoRowsWithHit(g, p, n, d, r + 1);
    }
  }

  // ----- Centre bonus ----------------------------------------------------

  /** The centre bonus of an "O" at (i, j), for rows 3..5 and columns 2..4. */
  function MiddleWeight(i: int, j: int): nat
  {
    if i == 5 && j == 3 then 50 else if i == 5 then 30 else if i == 4 then 5 else 1
  }

  /** Bonus of the "O" cells of row i at columns j..4. */
  ghost function MiddleCols(g: Grid, i: nat, j: nat): (m: nat)
    requires 3 <= i <= 5 && 2 <= j <= 5
    decreases 5 - j
  {
    if j == 5 then 0 else (if g[i][j] == O then MiddleWeight(i, j) else 0) + MiddleCols(g, i, j + 1)
  }

  /** Bonus of the "O" cells of rows i..5. */
  ghost function MiddleRows(g: Grid, i: nat): (m: nat)
    requires 3 <= i <= 6
    decreases 6 - i
  {
    if i == 6 then 0 else MiddleCols(g, i, 2) + MiddleRows(g, i + 1)
  }

  /** What countMiddle computes. */
  ghost function MiddleScore(g: Grid): nat
  {
    MiddleRows(g, 3)
  }

  /** The centre bonus lies in [0, 128]; 128 is the bonus of nine "O"s. */
  lemma MiddleScoreAtMost(g: Grid)
    ensures MiddleScore(g) <= 128
  {
    forall i | 3 <= i <= 5 ensures MiddleCols(g, i, 5) == 0 { }
    assert MiddleCols(g, 5, 2) <= 110 by {
      assert MiddleCols(g, 5, 4) <= 30;
      assert MiddleCols(g, 5, 3) <= 80;
    }
    assert MiddleCols(g, 4, 2) <= 15 by {
      assert MiddleCols(g, 4, 4) <= 5;
      assert MiddleCols(g, 4, 3) <= 10;
    }
    assert MiddleCols(g, 3, 2) <= 3 by {
      assert MiddleCols(g, 3, 4) <= 1;
      assert MiddleCols(g, 3, 3) <= 2;
    }
    assert MiddleRows(g, 6) == 0;
    assert MiddleRows(g, 5) <= 110;
    assert MiddleRows(g, 4) <= 125;
  }

  /** The centre bonus depends only on which cells of rows 3..5, columns 2..4 hold "O". */
  lemma MiddleScoreLocal(g: Grid, g': Grid)
    requires forall r, c | 3 <= r <= 5 && 2 <= c <= 4 :: (g[r][c] == O) == (g'[r][c] == O)
    ensures MiddleScore(g) == MiddleScore(g')
  {
    forall i | 3 <= i <= 5 ensures MiddleCols(g, i, 2) == MiddleCols(g', i, 2) {
      MiddleColsLocal(g, g', i, 2);
    }
    assert MiddleRows(g, 5) == MiddleRows(g', 5);
    assert MiddleRows(g, 4) == MiddleRows(g', 4);
  }

  lemma {:induction false} MiddleColsLocal(g: Grid, g': Grid, i: nat, j: nat)
    requires 3 <= i <= 5 && 2 <= j <= 5
    requires forall r, c | 3 <= r <= 5 && 2 <= c <= 4 :: (g[r][c] == O) == (g'[r][c] == O)
    ensures MiddleCols(g, i, j) == MiddleCols(g', i, j)
    decreases 5 - j
  {
    if j < 5 {
      MiddleColsLocal(g, g', i, j + 1);
    }
  }
}
