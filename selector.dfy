/** The move selector `bestMove` with its nested depth-weighted `minimax` search. */
module MoveSelector {
  import opened Cells
  import opened Evaluator

  /** Stand-ins for the `-Infinity` and `Infinity` start values of `best`;
      every real score lies strictly between them. */
  const Lowest: int := -11
  const Highest: int := 11

  function Max(a: int, b: int): int { if a < b then b else a }
  function Min(a: int, b: int): int { if a < b then a else b }

  /** The mark placed on the simulated turn: the searching player's when maximizing,
      the opponent's otherwise. */
  function Mover(player: Player, maximizing: bool): Player
  {
    if maximizing then player else Other(player)
  }

  /** `avail` from cell `i` on: the empty cells, in increasing order. */
  function AvailFrom(b: Board, i: nat): (r: seq<Index>)
    requires i <= 9
    ensures forall k | 0 <= k < |r| :: i <= r[k] && b[r[k]] == Empty
    ensures forall j | i <= j < 9 && b[j] == Empty :: j in r
    ensures forall k, l | 0 <= k < l < |r| :: r[k] < r[l]
    decreases 9 - i
  {
    if i == 9 then []
    else if b[i] == Empty then [i as Index] + AvailFrom(b, i + 1)
    else AvailFrom(b, i + 1)
  }

  /** `avail`: the indices of the empty cells, in increasing order. */
  function Avail(b: Board): (r: seq<Index>)
    ensures forall k | 0 <= k < |r| :: b[r[k]] == Empty
    ensures forall j | 0 <= j < 9 && b[j] == Empty :: j in r
    ensures forall k, l | 0 <= k < l < |r| :: r[k] < r[l]
  {
    AvailFrom(b, 0)
  }

  /** The cell just after the `k`-th candidate, where the scan has got to after `k` candidates. */
  function Reached(avail: seq<Index>, k: nat): nat
    requires k <= |avail|
  {
    if k == 0 then 0 else avail[k - 1] as nat + 1
  }

  /** The cell where the scan of `avail` stops after `k` candidates: the next candidate, or 9. */
  function Upto(avail: seq<Index>, k: nat): nat
    requires k <= |avail|
  {
    if k < |avail| then avail[k] as nat else 9
  }

  /** A cell strictly between the candidates `k - 1` and `k` of a sorted list is not in it. */
  lemma NotListed(avail: seq<Index>, k: nat, j: nat)
    requires forall x, y | 0 <= x < y < |avail| :: avail[x] < avail[y]
    requires k <= |avail| && Reached(avail, k) <= j < Upto(avail, k)
    ensures j !in avail
  {
    forall l | 0 <= l < |avail| ensures avail[l] != j {
      if l < k {
        assert l == k - 1 || avail[l] < avail[k - 1];
      } else {
        assert l == k || avail[k] < avail[l];
      }
    }
  }

  /** Between two consecutive candidates, and after the last one, no cell is empty. */
  lemma AvailGap(b: Board, k: nat)
    requires k <= |Avail(b)|
    ensures Reached(Avail(b), k) <= Upto(Avail(b), k) <= 9
    ensures forall j | Reached(Avail(b), k) <= j < Upto(Avail(b), k) :: b[j] != Empty
  {
    var avail := Avail(b);
    if 0 < k < |avail| {
      assert avail[k - 1] < avail[k];
    }
    forall j | Reached(avail, k) <= j < Upto(avail, k) ensures b[j] != Empty {
      NotListed(avail, k, j);
    }
  }

  /** `minimax(b, depth, isMaximizing)` of the search for `player`, as a function of the board. */
  function Minimax(b: Board, player: Player, depth: nat, maximizing: bool): int
    decreases EmptyCount(b), 1, 0
  {
    var res := CheckGame(b);
    if WonBy(res, player) then 10 - depth
    else if WonBy(res, Other(player)) then depth - 10
    else if res.tie then 0
    else Best(b, player, depth, maximizing, 9)
  }

  /** The value of `best` once the loop of `minimax` has tried the empty cells below `n`,
      in increasing order as `avail` lists them: the maximum (or minimum) of their
      scores, from the sentinel on. */
  function Best(b: Board, player: Player, depth: nat, maximizing: bool, n: nat): int
    requires n <= 9
    decreases EmptyCount(b), 0, n
  {
    if n == 0 then (if maximizing then Lowest else Highest)
    else
      var best := Best(b, player, depth, maximizing, n - 1);
      var i: Index := n - 1;
      if b[i] != Empty then best
      else
        FillDecreasesEmptyCount(b, i, Mover(player, maximizing));
        var score := Minimax(b[i := Mark(Mover(player, maximizing))], player, depth + 1, !maximizing);
        if maximizing then Max(best, score) else Min(best, score)
  }

  /** On a board where play continues, minimax is the loop's value over all the cells. */
  lemma MinimaxUnfold(b: Board, player: Player, depth: nat, maximizing: bool)
    requires Continues(CheckGame(b))
    ensures Minimax(b, player, depth, maximizing) == Best(b, player, depth, maximizing, 9)
  {
  }

  /** One candidate more: the score of its child is folded into `best`. */
  lemma BestStep(b: Board, player: Player, depth: nat, maximizing: bool, i: Index)
    requires b[i] == Empty
    ensures
      var score := Minimax(b[i := Mark(Mover(player, maximizing))], player, depth + 1, !maximizing);
      var best := Best(b, player, depth, maximizing, i);
      Best(b, player, depth, maximizing, i as nat + 1) == if maximizing then Max(best, score) else Min(best, score)
  {
  }

  /** Occupied cells are skipped: `best` does not change over them. */
  lemma {:induction false} BestSkip(b: Board, player: Player, depth: nat, maximizing: bool, n: nat, m: nat)
    requires n <= m <= 9
    requires forall j | n <= j < m :: b[j] != Empty
    ensures Best(b, player, depth, maximizing, m) == Best(b, player, depth, maximizing, n)
    decreases m
  {
    if n < m {
      BestSkip(b, player, depth, maximizing, n, m - 1);
    }
  }

  /** With two players, a winner other than `player` is the opponent. */
  lemma WinnerIsPlayerOrOpponent(r: Outcome, player: Player)
    requires r.winner.Some?
    ensures WonBy(r, player) || WonBy(r, Other(player))
  {
  }

  /** At most 9 - `depth` cells are empty: the search has placed `depth` marks since a
      board with at most nine empty cells. True of every call `bestMove` makes. */
  predicate InSearch(b: Board, depth: nat)
  {
    depth + EmptyCount(b) <= 9
  }

  /** Score bounds: a win scores `10 - depth`, a loss `depth - 10`, a tie 0, and the
      minimax value never leaves [depth - 10, 10 - depth], hence never [-10, 10];
      in particular the sentinels never escape. */
  lemma {:induction false} MinimaxBounds(b: Board, player: Player, depth: nat, maximizing: bool)
    requires InSearch(b, depth)
    ensures depth - 10 <= Minimax(b, player, depth, maximizing) <= 10 - depth
    ensures -10 <= Minimax(b, player, depth, maximizing) <= 10
    decreases EmptyCount(b), 1, 0
  {
    var res := CheckGame(b);
    if res.winner.Some? {
      WinnerIsPlayerOrOpponent(res, player);
    } else if !res.tie {
      var j :| 0 <= j < 9 && b[j] == Empty;
      MinimaxUnfold(b, player, depth, maximizing);
      BestBounds(b, player, depth, maximizing, 9, j);
    }
  }

  /** Once some empty cell `e` has been tried, the loop's value is one level tighter. */
  lemma {:induction false} BestBounds(b: Board, player: Player, depth: nat, maximizing: bool, n: nat, e: Index)
    requires e < n <= 9 && b[e] == Empty
    requires InSearch(b, depth)
    ensures depth + 1 - 10 <= Best(b, player, depth, maximizing, n) <= 10 - (depth + 1)
    decreases EmptyCount(b), 0, n
  {
    var i: Index := n - 1;
    if b[i] != Empty {
      BestSkip(b, player, depth, maximizing, i, n);
      BestBounds(b, player, depth, maximizing, i, e);
    } else {
      if e' :| 0 <= e' < i && b[e'] == Empty {
        BestBounds(b, player, depth, maximizing, i, e');
      } else {
        BestSkip(b, player, depth, maximizing, 0, i);
      }
      BestBoundsStep(b, player, depth, maximizing, i);
    }
  }

  /** Folding one child's score into `best`, whether it still holds the sentinel or a
      bounded score, gives a bounded score. */
  lemma BestBoundsStep(b: Board, player: Player, depth: nat, maximizing: bool, i: Index)
    requires b[i] == Empty && InSearch(b, depth)
    requires || Best(b, player, depth, maximizing, i) == (if maximizing then Lowest else Highest)
             || depth + 1 - 10 <= Best(b, player, depth, maximizing, i) <= 10 - (depth + 1)
    ensures depth + 1 - 10 <= Best(b, player, depth, maximizing, i as nat + 1) <= 10 - (depth + 1)
    decreases EmptyCount(b), 0, i
  {
    var m := Mover(player, maximizing);
    FillDecreasesEmptyCount(b, i, m);
    MinimaxBounds(b[i := Mark(m)], player, depth + 1, !maximizing);
    BestStep(b, player, depth, maximizing, i);
  }

  /** The top score `10 - depth` is reached exactly on a board the searching player has won. */
  lemma TopScoreIffWon(b: Board, player: Player, depth: nat, maximizing: bool)
    requires InSearch(b, depth)
    ensures Minimax(b, player, depth, maximizing) == 10 - depth <==> WonBy(CheckGame(b), player)
  {
    var res := CheckGame(b);
    if res.winner.Some? {
      WinnerIsPlayerOrOpponent(res, player);
    } else if !res.tie {
      var j :| 0 <= j < 9 && b[j] == Empty;
      MinimaxUnfold(b, player, depth, maximizing);
      BestBounds(b, player, depth, maximizing, 9, j);
    }
  }

  /** `minimax(b, depth, isMaximizing)`: the same search, placing and retracting marks in `b`. */
  method MinimaxSearch(b: array<Cell>, player: Player, depth: nat, maximizing: bool) returns (score: int)
    requires b.Length == 9
    modifies b
    ensures b[..] == old(b[..])
    ensures score == Minimax(old(b[..]), player, depth, maximizing)
    decreases EmptyCount(b[..]), 3
  {
    var res := CheckGame(b[..]);
    if WonBy(res, player) { return 10 - depth; }
    if WonBy(res, Other(player)) { return depth - 10; }
    if res.tie { return 0; }
    if res.winner.Some? { WinnerIsPlayerOrOpponent(res, player); }
    MinimaxUnfold(b[..], player, depth, maximizing);
    score := SearchMoves(b, player, depth, maximizing);
  }

  /** The two loops of `minimax` over `avail`: try each empty cell in turn and fold its
      score into `best`. */
  method SearchMoves(b: array<Cell>, player: Player, depth: nat, maximizing: bool) returns (best: int)
    requires b.Length == 9
    modifies b
    ensures b[..] == old(b[..])
    ensures best == Best(old(b[..]), player, depth, maximizing, 9)
    decreases EmptyCount(b[..]), 2
  {
    ghost var b0: Board := b[..];
    var avail := Avail(b[..]);
    best := if maximizing then Lowest else Highest;
    var k := 0;
    while k < |avail|
      invariant k <= |avail|
      invariant b[..] == b0
      invariant best == Best(b0, player, depth, maximizing, Reached(avail, k))
    {
      best := TryCandidate(b, avail, k, player, depth, maximizing, best);
      k := k + 1;
    }
    ScanDone(b0, avail, player, depth, maximizing, best);
  }

  /** One turn of either loop of `minimax`: try candidate `k` and fold its score into
      `best`, taking the larger when maximizing and the smaller otherwise. */
  method TryCandidate(b: array<Cell>, avail: seq<Index>, k: nat, player: Player, depth: nat, maximizing: bool,
                      best: int) returns (next: int)
    requires b.Length == 9 && avail == Avail(b[..]) && k < |avail|
    requires best == Best(b[..], player, depth, maximizing, Reached(avail, k))
    modifies b
    ensures b[..] == old(b[..])
    ensures next == Best(old(b[..]), player, depth, maximizing, Reached(avail, k + 1))
    decreases EmptyCount(b[..]), 1
  {
    ghost var b0: Board := b[..];
    var s := TryMove(b, avail[k], Mover(player, maximizing), player, depth + 1, !maximizing);
    ScanStep(b0, avail, player, depth, maximizing, k, best, s);
    next := if maximizing then Max(best, s) else Min(best, s);
  }

  /** The cells the scan skips before candidate `k` leave `best` unchanged. */
  lemma ScanSkip(b: Board, avail: seq<Index>, player: Player, depth: nat, maximizing: bool, k: nat)
    requires avail == Avail(b) && k < |avail|
    ensures Best(b, player, depth, maximizing, avail[k]) == Best(b, player, depth, maximizing, Reached(avail, k))
  {
    AvailGap(b, k);
    BestSkip(b, player, depth, maximizing, Reached(avail, k), avail[k]);
  }

  /** Folding in the score of candidate `k` gives the loop's value up to and including that cell. */
  lemma ScanStep(b: Board, avail: seq<Index>, player: Player, depth: nat, maximizing: bool, k: nat, best: int, s: int)
    requires avail == Avail(b) && k < |avail|
    requires best == Best(b, player, depth, maximizing, Reached(avail, k))
    requires s == Minimax(b[avail[k] := Mark(Mover(player, maximizing))], player, depth + 1, !maximizing)
    ensures (if maximizing then Max(best, s) else Min(best, s))
         == Best(b, player, depth, maximizing, Reached(avail, k + 1))
  {
    ScanSkip(b, avail, player, depth, maximizing, k);
    BestStep(b, player, depth, maximizing, avail[k]);
  }

  /** After the last candidate the loop's value is its value over the whole board. */
  lemma ScanDone(b: Board, avail: seq<Index>, player: Player, depth: nat, maximizing: bool, best: int)
    requires avail == Avail(b)
    requires best == Best(b, player, depth, maximizing, Reached(avail, |avail|))
    ensures best == Best(b, player, depth, maximizing, 9)
  {
    AvailGap(b, |avail|);
    BestSkip(b, player, depth, maximizing, Reached(avail, |avail|), 9);
  }

  /** The move-and-retract step shared by both functions: put `mark` on the empty cell `i`,
      score the position, and clear the cell again. */
  method TryMove(b: array<Cell>, i: Index, mark: Player, player: Player, depth: nat, maximizing: bool)
    returns (score: int)
    requires b.Length == 9 && b[i] == Empty
    modifies b
    ensures b[..] == old(b[..])
    ensures score == Minimax(old(b[..])[i := Mark(mark)], player, depth, maximizing)
    decreases EmptyCount(b[..]), 0
  {
    ghost var b0: Board := b[..];
    FillDecreasesEmptyCount(b0, i, mark);
    b[i] := Mark(mark);
    assert b[..] == b0[i := Mark(mark)];
    score := MinimaxSearch(b, player, depth, maximizing);
    b[i] := Empty;
    assert b[..] == b0;
  }

  /** The score `bestMove` gives to putting `player` on cell `i`: `minimax(b, 0, false)`
      after the mark is placed. */
  function Score(b: Board, player: Player, i: Index): int
  {
    Minimax(b[i := Mark(player)], player, 0, false)
  }

  /** The score of every cell, as `bestMove`'s loop computes it for the empty ones. */
  function Scores(b: Board, player: Player): seq<int>
  {
    seq(9, j requires 0 <= j < 9 => Score(b, player, j))
  }

  /** The best candidate so far: `move` with its `bestScore`. */
  datatype Pick = Pick(index: Index, score: int)

  /** The state of `bestMove`'s scan after cells 0..n-1 with the given cell scores: the
      first empty cell reaching the highest score, or none yet when none of them is empty. */
  function Choose(b: Board, scores: seq<int>, n: nat): (r: Option<Pick>)
    requires n <= 9 == |scores|
    ensures r.None? <==> forall j | 0 <= j < n :: b[j] != Empty
    ensures r.Some? ==> r.value.index < n && b[r.value.index] == Empty
    ensures r.Some? ==> r.value.score == scores[r.value.index]
    ensures r.Some? ==> forall j | 0 <= j < n && b[j] == Empty :: scores[j] <= r.value.score
    ensures r.Some? ==> forall j | 0 <= j < r.value.index && b[j] == Empty :: scores[j] < r.value.score
  {
    if n == 0 then None
    else
      var prev := Choose(b, scores, n - 1);
      var i: Index := n - 1;
      if b[i] != Empty then prev
      else if prev.None? || scores[i] > prev.value.score then Some(Pick(i, scores[i]))
      else prev
  }

  /** `bestMove(sboard, player)` as a function of the board. */
  function BestMoveSpec(b: Board, player: Player): (r: Option<Index>)
    ensures AllEmpty(b) ==> r == Some(4)
    ensures r.None? <==> Full(b)
    ensures r.Some? ==> b[r.value] == Empty
    ensures !AllEmpty(b) && r.Some? ==>
      && (forall j | 0 <= j < 9 && b[j] == Empty :: Score(b, player, j) <= Score(b, player, r.value))
      && (forall j | 0 <= j < r.value && b[j] == Empty :: Score(b, player, j) < Score(b, player, r.value))
  {
    if AllEmpty(b) then assert b[0] == Empty; Some(4)
    else
      match Choose(b, Scores(b, player), 9)
      case None => None
      case Some(pick) => Some(pick.index)
  }

  /** `bestMove(sboard, player)`: the center on an empty board, otherwise the lowest empty
      cell with the highest score, or none on a full board. Every hypothetical mark is
      retracted, so the board is as it was. */
  method BestMove(sboard: array<Cell>, player: Player) returns (move: Option<Index>)
    requires sboard.Length == 9
    modifies sboard
    ensures sboard[..] == old(sboard[..])
    ensures move == BestMoveSpec(old(sboard[..]), player)
  {
    if AllEmpty(sboard[..]) { return Some(4); }

    ghost var b0: Board := sboard[..];
    ghost var scores := Scores(b0, player);
    // `bestScore = -Infinity, move = null`: while `move` is None every score beats
    // `bestScore`, so its value there does not matter.
    var bestScore := 0;
    move := None;
    for i := 0 to 9
      invariant sboard[..] == b0
      invariant move.None? <==> Choose(b0, scores, i).None?
      invariant move.Some? ==> Choose(b0, scores, i) == Some(Pick(move.value, bestScore))
    {
      if sboard[i] == Empty {
        var score := TryMove(sboard, i, player, player, 0, false);
        if move.None? || score > bestScore {
          bestScore := score;
          move := Some(i as Index);
        }
      }
    }
  }

  /** A winning move exists for `player` at `i`: `checkGame` reports `player` as winner. */
  predicate WinsAt(b: Board, player: Player, i: Index)
  {
    WonBy(CheckGame(b[i := Mark(player)]), player)
  }

  /** No single mark wins on an empty board. */
  lemma NoWinOnEmptyBoard(b: Board, player: Player, i: Index)
    ensures AllEmpty(b) ==> !WinsAt(b, player, i)
  {
    if AllEmpty(b) {
      var c := b[i := Mark(player)];
      forall x, y | 0 <= x < y < 9 ensures !(c[x].Mark? && c[x] == c[y]) {
      }
      NoRepeatNoWinner(c);
    }
  }

  /** At the top of the search a move scores 10 exactly when it wins at once, and never more. */
  lemma ScoreTen(b: Board, player: Player, i: Index)
    ensures Score(b, player, i) <= 10
    ensures Score(b, player, i) == 10 <==> WinsAt(b, player, i)
  {
    MinimaxBounds(b[i := Mark(player)], player, 0, false);
    TopScoreIffWon(b[i := Mark(player)], player, 0, false);
  }

  /** Immediate win preferred: when some empty cell wins at once, `bestMove` returns
      the lowest empty cell that wins at once. */
  lemma ImmediateWinChosen(b: Board, player: Player, i: Index)
    requires b[i] == Empty && WinsAt(b, player, i)
    ensures BestMoveSpec(b, player).Some?
    ensures WinsAt(b, player, BestMoveSpec(b, player).value)
    ensures forall j | 0 <= j < BestMoveSpec(b, player).value && b[j] == Empty :: !WinsAt(b, player, j)
  {
    NoWinOnEmptyBoard(b, player, i);
    var m := BestMoveSpec(b, player).value;
    ScoreTen(b, player, i);
    ScoreTen(b, player, m);
    forall j | 0 <= j < m && b[j] == Empty ensures !WinsAt(b, player, j) {
      ScoreTen(b, player, j);
    }
  }
}
