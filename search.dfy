/** The positional heuristic, move generation and bounded minimax, as functions of
    grids. `live` is the board of the game in progress: the move generator asks it,
    not the board being searched, whether a column is full. */
module Search {
  import opened Board
  import opened Lines

  /** Java's Integer.MIN_VALUE and Integer.MAX_VALUE. */
  const MinValue: int := -2147483648
  const MaxValue: int := 2147483647

  datatype Option<T> = None | Some(value: T)

  /** Math.max and Math.min. */
  function Max(a: int, b: int): (m: int)
    ensures m >= a && m >= b && (m == a || m == b)
  {
    if a >= b then a else b
  }

  function Min(a: int, b: int): (m: int)
    ensures m <= a && m <= b && (m == a || m == b)
  {
    if a <= b then a else b
  }

  /** The weighted sum of run counts, with the centre bonus added when the sum is within 30 of zero. */
  function RunScore(three: int, two: int, opponentThree: int, opponentTwo: int, middle: int): int
  {
    var v := 1000 * three + 250 * two - 100 * opponentThree - 10 * opponentTwo;
    if -30 < v < 30 then v + 10 * middle else v
  }

  /** RunScore of counts whose weighted sum is v. */
  lemma RunScoreOf(three: int, two: int, opponentThree: int, opponentTwo: int, middle: int, v: int)
    requires v == 1000 * three + 250 * two - 100 * opponentThree - 10 * opponentTwo
    ensures RunScore(three, two, opponentThree, opponentTwo, middle) == if -30 < v < 30 then v + 10 * middle else v
  {
  }

  /** What heuristic computes for grid g; `player` is the engine's side field. */
  ghost function HeuristicValue(player: bool, g: Grid): int
  {
    if FourInARow(g, player) then MaxValue
    else if FourInARow(g, !player) then MinValue
    else RunScore(InARowCount(g, player, 3), InARowCount(g, player, 2),
                  InARowCount(g, !player, 3), InARowCount(g, !player, 2), MiddleScore(g))
  }

  /** The heuristic is MAX_VALUE exactly when `player` has four in a row, MIN_VALUE exactly
      when only the other side has, and otherwise a score strictly between the two. */
  lemma HeuristicCases(player: bool, g: Grid)
    ensures HeuristicValue(player, g) == MaxValue <==> FourInARow(g, player)
    ensures HeuristicValue(player, g) == MinValue <==> !FourInARow(g, player) && FourInARow(g, !player)
    ensures !FourInARow(g, player) && !FourInARow(g, !player) ==> -14520 <= HeuristicValue(player, g) <= 165000
    ensures MinValue <= HeuristicValue(player, g) <= MaxValue
  {
    MiddleScoreAtMost(g);
    InARowCountAtMost(g, player, 3);
    InARowCountAtMost(g, player, 2);
    InARowCountAtMost(g, !player, 3);
    InARowCountAtMost(g, !player, 2);
    RunScoreRange(InARowCount(g, player, 3), InARowCount(g, player, 2),
                  InARowCount(g, !player, 3), InARowCount(g, !player, 2), MiddleScore(g));
  }

  /** With at most 132 runs of each kind and a centre bonus of at most 128, the score of the
      run counts lies in [-14520, 165000], far from both extreme values. */
  lemma RunScoreRange(three: int, two: int, opponentThree: int, opponentTwo: int, middle: int)
    requires 0 <= three <= 132 && 0 <= two <= 132 && 0 <= opponentThree <= 132 && 0 <= opponentTwo <= 132
    requires 0 <= middle <= 128
    ensures -14520 <= RunScore(three, two, opponentThree, opponentTwo, middle) <= 165000
  {
  }

  /** What getPossibleStates returns: one entry per column, None where the live board's
      top cell is occupied, otherwise g with p's piece dropped into that column. */
  ghost function PossibleStates(live: Grid, g: Grid, p: bool): (s: seq<Option<Grid>>)
    ensures |s| == 7
  {
    seq(7, k requires 0 <= k < 7 => if live[0][k] != Empty then None else Some(Drop(g, k, p)))
  }

  /** Because fullness is read from the live board, a column that is open on the live board
      but full on the searched board yields the searched board itself (a move that places nothing). */
  lemma FullSearchedColumnYieldsSameGrid(live: Grid, g: Grid, p: bool, k: nat)
    requires k < 7 && live[0][k] == Empty
    requires forall r | 0 <= r < 6 :: g[r][k] != Empty
    ensures PossibleStates(live, g, p)[k] == Some(g)
  {
    DropPlacesLowest(g, k, p);
  }

  /** What minimax returns for state s searched to the given depth. */
  ghost function MinimaxValue(live: Grid, player: bool, s: Option<Grid>, depth: nat, maximizing: bool): (v: int)
    ensures MinValue <= v <= MaxValue
    decreases depth, 0, 0
  {
    match s
    case None => MinValue
    case Some(g) =>
      if depth == 0 || FourInARow(g, maximizing) then
        HeuristicCases(player, g);
        HeuristicValue(player, g)
      else if maximizing then
        MaxChildren(live, player, PossibleStates(live, g, true), depth - 1, 7)
      else
        MinChildren(live, player, PossibleStates(live, g, false), depth - 1, 7)
  }

  /** The maximizing loop: Math.max over the present entries of kids[..k], starting from MIN_VALUE;
      each child is searched with maximizing false. */
  ghost function MaxChildren(live: Grid, player: bool, kids: seq<Option<Grid>>, depth: nat, k: nat): (v: int)
    requires k <= |kids|
    ensures MinValue <= v <= MaxValue
    decreases depth, 1, k
  {
    if k == 0 then MinValue
    else if kids[k - 1].Some? then
      Max(MaxChildren(live, player, kids, depth, k - 1), MinimaxValue(live, player, kids[k - 1], depth, false))
    else MaxChildren(live, player, kids, depth, k - 1)
  }

  /** The minimizing loop: Math.min over all entries of kids[..k], absent ones included,
      starting from MAX_VALUE; each child is searched with maximizing true. */
  ghost function MinChildren(live: Grid, player: bool, kids: seq<Option<Grid>>, depth: nat, k: nat): (v: int)
    requires k <= |kids|
    ensures MinValue <= v <= MaxValue
    decreases depth, 1, k
  {
    if k == 0 then MaxValue
    else Min(MinChildren(live, player, kids, depth, k - 1), MinimaxValue(live, player, kids[k - 1], depth, true))
  }

  /** MaxChildren is the largest score of a present child, or MIN_VALUE when no child is present. */
  lemma {:induction false} MaxChildrenIsMax(live: Grid, player: bool, kids: seq<Option<Grid>>, depth: nat, k: nat)
    requires k <= |kids|
    ensures forall c | 0 <= c < k && kids[c].Some? ::
      MinimaxValue(live, player, kids[c], depth, false) <= MaxChildren(live, player, kids, depth, k)
    ensures (forall c | 0 <= c < k :: kids[c].None?) ==> MaxChildren(live, player, kids, depth, k) == MinValue
    ensures (exists c | 0 <= c < k :: kids[c].Some?) ==>
      exists c | 0 <= c < k && kids[c].Some? ::
        MaxChildren(live, player, kids, depth, k) == MinimaxValue(live, player, kids[c], depth, false)
  {
    if k > 0 {
      MaxChildrenIsMax(live, player, kids, depth, k - 1);
    }
  }

  /** MinChildren is the smallest score of all children; an absent child scores MIN_VALUE. */
  lemma {:induction false} MinChildrenIsMin(live: Grid, player: bool, kids: seq<Option<Grid>>, depth: nat, k: nat)
    requires k <= |kids|
    ensures forall c | 0 <= c < k ::
      MinChildren(live, player, kids, depth, k) <= MinimaxValue(live, player, kids[c], depth, true)
    ensures k > 0 ==> exists c | 0 <= c < k ::
      MinChildren(live, player, kids, depth, k) == MinimaxValue(live, player, kids[c], depth, true)
    ensures (exists c | 0 <= c < k :: kids[c].None?) ==> MinChildren(live, player, kids, depth, k) == MinValue
  {
    if k > 0 {
      MinChildrenIsMin(live, player, kids, depth, k - 1);
      var last := MinimaxValue(live, player, kids[k - 1], depth, true);
      if MinChildren(live, player, kids, depth, k) == last {
        assert exists c | 0 <= c < k :: MinChildren(live, player, kids, depth, k) == MinimaxValue(live, player, kids[c], depth, true);
      }
    }
  }

  /** The cases of minimax: a missing state scores MIN_VALUE; depth 0 or a win for the side
      being evaluated scores the heuristic; otherwise a maximizing node takes the largest score
      of its present children (MIN_VALUE if none) and a minimizing node the smallest score of
      all seven children, so that one absent child forces MIN_VALUE. */
  lemma MinimaxNode(live: Grid, player: bool, s: Option<Grid>, depth: nat, maximizing: bool)
    ensures s.None? ==> MinimaxValue(live, player, s, depth, maximizing) == MinValue
    ensures s.Some? && (depth == 0 || FourInARow(s.value, maximizing)) ==>
      MinimaxValue(live, player, s, depth, maximizing) == HeuristicValue(player, s.value)
    ensures s.Some? && depth > 0 && !FourInARow(s.value, maximizing) && maximizing ==>
      var kids := PossibleStates(live, s.value, true);
      var v := MinimaxValue(live, player, s, depth, maximizing);
      (forall c | 0 <= c < 7 && kids[c].Some? :: MinimaxValue(live, player, kids[c], depth - 1, false) <= v) &&
      ((forall c | 0 <= c < 7 :: kids[c].None?) ==> v == MinValue) &&
      ((exists c | 0 <= c < 7 :: kids[c].Some?) ==>
         exists c | 0 <= c < 7 && kids[c].Some? :: v == MinimaxValue(live, player, kids[c], depth - 1, false))
    ensures s.Some? && depth > 0 && !FourInARow(s.value, maximizing) && !maximizing ==>
      var kids := PossibleStates(live, s.value, false);
      var v := MinimaxValue(live, player, s, depth, maximizing);
      (forall c | 0 <= c < 7 :: v <= MinimaxValue(live, player, kids[c], depth - 1, true)) &&
      (exists c | 0 <= c < 7 :: v == MinimaxValue(live, player, kids[c], depth - 1, true)) &&
      ((exists c | 0 <= c < 7 :: kids[c].None?) ==> v == MinValue)
  {
    if s.Some? && depth > 0 && !FourInARow(s.value, maximizing) {
      if maximizing {
        MaxChildrenIsMax(live, player, PossibleStates(live, s.value, true), depth - 1, 7);
      } else {
        MinChildrenIsMin(live, player, PossibleStates(live, s.value, false), depth - 1, 7);
      }
    }
  }

  /** The root loop's choice among scores[..i]: the first index whose score is strictly greater
      than every score before it and than MIN_VALUE, with that score; (0, MIN_VALUE) when none is. */
  function FirstBest(scores: seq<int>, i: nat): (best: (int, int))
    requires i <= |scores|
    decreases i
  {
    if i == 0 then (0, MinValue)
    else
      var prev := FirstBest(scores, i - 1);
      if scores[i - 1] > prev.1 then (i - 1, scores[i - 1]) else prev
  }

  /** FirstBest picks column 0 when no score exceeds MIN_VALUE, and otherwise the first
      column holding the largest score. */
  lemma {:induction false} FirstBestIsFirstMax(scores: seq<int>, i: nat)
    requires i <= |scores|
    ensures var (move, best) := FirstBest(scores, i);
      0 <= move && (move == 0 || move < i) && best >= MinValue
    ensures var (move, best) := FirstBest(scores, i);
      best == MinValue ==> move == 0 && forall k | 0 <= k < i :: scores[k] <= MinValue
    ensures var (move, best) := FirstBest(scores, i);
      best > MinValue ==>
        scores[move] == best && (forall k | 0 <= k < i :: scores[k] <= best) && (forall k | 0 <= k < move :: scores[k] < best)
    decreases i
  {
    if i > 0 {
      FirstBestIsFirstMax(scores, i - 1);
    }
  }

  /** The scores the root loop compares: minimax of each of `player`'s moves on the live
      board, searched to the full depth with maximizing false. */
  ghost function RootScores(live: Grid, player: bool, depth: nat): (scores: seq<int>)
    ensures |scores| == 7
  {
    var kids := PossibleStates(live, live, player);
    seq(7, k requires 0 <= k < 7 => MinimaxValue(live, player, kids[k], depth, false))
  }

  /** Because the minimizing loop does not skip absent children, a single full column c on the
      live board makes every child of every root state absent in column c. So once depth >= 1,
      every root score is MIN_VALUE (when no move of `player` leaves the other side with four in
      a row, which would end the search at that state), and the root loop picks column 0, even
      when one of `player`'s moves would win at once and even when column 0 is full. */
  lemma RootAllMin(live: Grid, player: bool, depth: nat, c: nat)
    requires c < 7 && live[0][c] != Empty && depth >= 1
    requires forall k | 0 <= k < 7 && live[0][k] == Empty :: !FourInARow(Drop(live, k, player), false)
    ensures forall k | 0 <= k < 7 :: RootScores(live, player, depth)[k] == MinValue
    ensures FirstBest(RootScores(live, player, depth), 7).0 == 0
  {
    var scores := RootScores(live, player, depth);
    var kids := PossibleStates(live, live, player);
    forall k | 0 <= k < 7 ensures scores[k] == MinValue {
      if kids[k].Some? {
        var grandkids := PossibleStates(live, kids[k].value, false);
        assert grandkids[c].None?;
        MinChildrenIsMin(live, player, grandkids, depth - 1, 7);
      }
    }
    FirstBestIsFirstMax(scores, 7);
  }
}
