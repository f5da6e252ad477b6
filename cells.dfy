/** Players, cells and the 3x3 board of script.js, with counting helpers. */
module Cells {

  datatype Option<T> = None | Some(value: T)

  /** The two symbols 'X' and 'O'. */
  datatype Player = X | O

  /** The opponent of `p`. */
  function Other(p: Player): (q: Player)
    ensures q != p
  {
    if p == X then O else X
  }

  /** A cell holds null or a player's mark. */
  datatype Cell = Empty | Mark(player: Player)

  /** A cell index of the row-major 3x3 grid. */
  type Index = i: nat | i < 9

  /** A board is always an array of nine cells. */
  type Board = b: seq<Cell> | |b| == 9
    witness [Empty, Empty, Empty, Empty, Empty, Empty, Empty, Empty, Empty]

  /** The board of a new game: nine empty cells. */
  const EmptyBoard: Board := seq(9, _ => Empty)

  /** No cell is empty. */
  predicate Full(b: Board)
  {
    forall i | 0 <= i < 9 :: b[i] != Empty
  }

  /** Every cell is empty. */
  predicate AllEmpty(b: Board)
  {
    forall i | 0 <= i < 9 :: b[i] == Empty
  }

  /** The number of cells of `s` that hold `c`. */
  function Count(s: seq<Cell>, c: Cell): (n: nat)
    ensures n <= |s|
  {
    if s == [] then 0 else (if s[0] == c then 1 else 0) + Count(s[1..], c)
  }

  /** The number of empty cells: the measure that bounds the search. */
  function EmptyCount(b: Board): (n: nat)
    ensures n <= 9
  {
    Count(b, Empty)
  }

  /** Writing `d` into cell `i` changes the number of cells holding `c`
      by what was removed and what was put there. */
  lemma {:induction false} CountUpdate(s: seq<Cell>, i: nat, d: Cell, c: Cell)
    requires i < |s|
    ensures Count(s[i := d], c)
         == Count(s, c) - (if s[i] == c then 1 else 0) + (if d == c then 1 else 0)
  {
    if i > 0 {
      assert s[i := d][1..] == s[1..][i - 1 := d];
      CountUpdate(s[1..], i - 1, d, c);
    } else {
      assert s[i := d][1..] == s[1..];
    }
  }

  /** Placing a mark on an empty cell removes exactly one empty cell. */
  lemma FillDecreasesEmptyCount(b: Board, i: Index, p: Player)
    requires b[i] == Empty
    ensures EmptyCount(b[i := Mark(p)]) == EmptyCount(b) - 1
  {
    CountUpdate(b, i, Mark(p), Empty);
  }
}
