/** The outcome evaluator `checkGame` and its table of winning lines. */
module Evaluator {
  import opened Cells

  /** A line is a triple of cell indices. */
  type Line = (Index, Index, Index)

  /** `wins`: the three rows, the three columns and the two diagonals, in table order. */
  const Wins: seq<Line> := [
    (0, 1, 2), (3, 4, 5), (6, 7, 8),
    (0, 3, 6), (1, 4, 7), (2, 5, 8),
    (0, 4, 8), (2, 4, 6)
  ]

  /** Line `k` of the table holds three equal marks. */
  predicate Won(b: Board, k: nat)
    requires k < |Wins|
  {
    b[Wins[k].0].Mark? && b[Wins[k].0] == b[Wins[k].1] && b[Wins[k].0] == b[Wins[k].2]
  }

  /** `{winner, line, tie}` as returned by `checkGame`. */
  datatype Outcome = Outcome(winner: Option<Player>, line: Option<Line>, tie: bool)

  /** The outcome names `p` as the winner. */
  predicate WonBy(r: Outcome, p: Player)
  {
    r.winner.Some? && r.winner.value == p
  }

  /** Play goes on: no winner and no tie. */
  predicate Continues(r: Outcome)
  {
    r.winner.None? && !r.tie
  }

  /** The loop of `checkGame` from line `k` on: the index of the first won line, if any. */
  function FirstWon(b: Board, k: nat): (r: Option<nat>)
    requires k <= |Wins|
    ensures r.Some? ==> k <= r.value < |Wins| && Won(b, r.value)
    ensures r.Some? ==> forall j | k <= j < r.value :: !Won(b, j)
    ensures r.None? ==> forall j | k <= j < |Wins| :: !Won(b, j)
    decreases |Wins| - k
  {
    if k == |Wins| then None
    else if Won(b, k) then Some(k)
    else FirstWon(b, k + 1)
  }

  /** `checkGame(b)`: the first won line in table order with its symbol, else a tie
      when the board is full, else "continue". */
  function CheckGame(b: Board): (r: Outcome)
    ensures r.winner.Some? <==> exists k | 0 <= k < |Wins| :: Won(b, k)
    ensures r.winner.Some? ==>
      exists k | 0 <= k < |Wins| ::
        && Won(b, k)
        && (forall j | 0 <= j < k :: !Won(b, j))
        && r.line == Some(Wins[k])
        && b[Wins[k].0] == Mark(r.winner.value)
    ensures r.winner.None? ==> r.line.None?
    ensures r.tie <==> (forall k | 0 <= k < |Wins| :: !Won(b, k)) && Full(b)
    ensures !(r.winner.Some? && r.tie)
    ensures Full(b) ==> !Continues(r)
  {
    match FirstWon(b, 0)
    case Some(k) => Outcome(Some(b[Wins[k].0].player), Some(Wins[k]), false)
    case None => Outcome(None, None, Full(b))
  }

  /** Every line of the table lists three distinct cells in increasing order. */
  lemma LinesIncreasing(k: nat)
    requires k < |Wins|
    ensures Wins[k].0 < Wins[k].1 < Wins[k].2
  {
    assert k in {0, 1, 2, 3, 4, 5, 6, 7};
  }

  /** A board on which no mark occurs twice has no winner. */
  lemma NoRepeatNoWinner(b: Board)
    requires forall i, j | 0 <= i < j < 9 :: !(b[i].Mark? && b[i] == b[j])
    ensures CheckGame(b).winner.None?
  {
    forall k | 0 <= k < |Wins| ensures !Won(b, k) {
      LinesIncreasing(k);
    }
  }

  /** The empty board is neither won nor tied. */
  lemma EmptyBoardContinues()
    ensures Continues(CheckGame(EmptyBoard))
  {
    NoRepeatNoWinner(EmptyBoard);
    assert EmptyBoard[0] == Empty;
  }
}
