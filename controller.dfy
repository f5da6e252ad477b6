/** The game state of script.js (`board`, `currentPlayer`, `playing`, `mode`) and its
    transitions: `playMove`, `reset`, the CPU's reply and the click handler. */
module Controller {
  import opened Cells
  import opened Evaluator
  import opened MoveSelector

  /** `mode`: 'pvp' or 'cpu'. */
  datatype Mode = Pvp | Cpu

  /** The state `playMove` and `reset` work on. */
  datatype GameState = GameState(board: Board, current: Player, playing: bool)

  /** `playing` tells exactly whether the board is still undecided. */
  predicate Consistent(s: GameState)
  {
    s.playing <==> Continues(CheckGame(s.board))
  }

  /** The number of `p`'s marks on the board. */
  function Marks(b: Board, p: Player): nat
  {
    Count(b, Mark(p))
  }

  /** X opens and the players alternate: X has as many marks as O or one more, and while
      the game goes on the player to move is X exactly when the counts are equal. */
  predicate Balanced(s: GameState)
  {
    && (Marks(s.board, X) == Marks(s.board, O) || Marks(s.board, X) == Marks(s.board, O) + 1)
    && (s.playing ==> (s.current == X <==> Marks(s.board, X) == Marks(s.board, O)))
  }

  /** A sequence in which no cell holds `c` counts no `c`. */
  lemma {:induction false} CountAbsent(s: seq<Cell>, c: Cell)
    requires forall i | 0 <= i < |s| :: s[i] != c
    ensures Count(s, c) == 0
  {
    if s != [] {
      assert forall i | 0 <= i < |s[1..]| :: s[1..][i] == s[i + 1];
      CountAbsent(s[1..], c);
    }
  }

  /** The state after `reset` (and at start-up): an empty board, X to move, playing. */
  const NewGame: GameState := GameState(EmptyBoard, X, true)

  /** A new game is undecided, its marks are balanced and X is to move. */
  lemma NewGameSettled()
    ensures AllEmpty(NewGame.board) && NewGame.current == X && NewGame.playing
    ensures Consistent(NewGame) && Balanced(NewGame)
  {
    EmptyBoardContinues();
    CountAbsent(EmptyBoard, Mark(X));
    CountAbsent(EmptyBoard, Mark(O));
  }

  /** The state part of `playMove(idx, player)`. */
  function Play(s: GameState, idx: Index, player: Player): (t: GameState)
    ensures s.board[idx] != Empty || !s.playing ==> t == s
    ensures s.board[idx] == Empty && s.playing ==>
      && t.board == s.board[idx := Mark(player)]
      && (t.playing <==> Continues(CheckGame(t.board)))
      && t.current == (if t.playing then Other(player) else s.current)
    ensures EmptyCount(t.board) == EmptyCount(s.board) - (if s.board[idx] == Empty && s.playing then 1 else 0)
  {
    if s.board[idx] != Empty || !s.playing then s
    else
      FillDecreasesEmptyCount(s.board, idx, player);
      var b := s.board[idx := Mark(player)];
      var res := CheckGame(b);
      if res.winner.Some? then GameState(b, s.current, false)
      else if res.tie then GameState(b, s.current, false)
      else GameState(b, Other(player), true)
  }

  /** `playMove` keeps `playing` in step with the board. */
  lemma PlayKeepsConsistent(s: GameState, idx: Index, player: Player)
    requires Consistent(s)
    ensures Consistent(Play(s, idx, player))
  {
  }

  /** A move by the player whose turn it is keeps the marks alternating. */
  lemma PlayKeepsBalance(s: GameState, idx: Index)
    requires Balanced(s)
    ensures Balanced(Play(s, idx, s.current))
  {
    if s.board[idx] == Empty && s.playing {
      var p := s.current;
      CountUpdate(s.board, idx, Mark(p), Mark(X));
      CountUpdate(s.board, idx, Mark(p), Mark(O));
    }
  }

  /** The CPU's reply (the body of the `setTimeout` callbacks, run as a direct call):
      `bestMove(board, 'O')`, then `playMove(move, 'O')` unless it is null. */
  function CpuStep(s: GameState): (t: GameState)
    ensures Consistent(s) && s.playing ==> EmptyCount(t.board) == EmptyCount(s.board) - 1
    ensures !s.playing ==> t == s
  {
    match BestMoveSpec(s.board, O)
    case None => s
    case Some(m) => Play(s, m, O)
  }

  /** The CPU answers a move of X's with one O, and play goes back to X if it goes on. */
  lemma CpuStepKeepsBalance(s: GameState)
    requires Consistent(s) && Balanced(s)
    requires s.playing ==> s.current == O
    ensures Consistent(CpuStep(s)) && Balanced(CpuStep(s))
    ensures CpuStep(s).playing ==> CpuStep(s).current == X
  {
    match BestMoveSpec(s.board, O)
    case None =>
    case Some(m) =>
      PlayKeepsConsistent(s, m, O);
      if s.playing {
        PlayKeepsBalance(s, m);
      }
  }

  /** On an undecided board the CPU always moves: one more O, as many X as before. */
  lemma CpuStepAddsO(s: GameState)
    requires Consistent(s) && s.playing
    ensures Marks(CpuStep(s).board, O) == Marks(s.board, O) + 1
    ensures Marks(CpuStep(s).board, X) == Marks(s.board, X)
  {
    var m := BestMoveSpec(s.board, O).value;
    CountUpdate(s.board, m, Mark(O), Mark(X));
    CountUpdate(s.board, m, Mark(O), Mark(O));
  }

  /** Whether a CPU reply is due after a move: CPU mode, still playing, O to move
      (the condition both `onCellClick` and `playMove` test). */
  predicate ReplyDue(t: GameState, mode: Mode)
  {
    mode == Cpu && t.playing && t.current == O
  }

  /** `onCellClick` as written: `playMove` schedules a CPU reply and, after it returns,
      `onCellClick` schedules a second one under the same condition, so both run. */
  function HandleClickAsWritten(s: GameState, mode: Mode, idx: Index): (t: GameState)
    ensures !s.playing || s.board[idx] != Empty ==> t == s
    ensures s.playing && s.board[idx] == Empty && !ReplyDue(Play(s, idx, s.current), mode) ==>
      t == Play(s, idx, s.current)
  {
    if !s.playing || s.board[idx] != Empty then s
    else
      var t := Play(s, idx, s.current);
      if ReplyDue(t, mode) then CpuStep(CpuStep(t)) else t
  }

  /** The click handler with a single CPU reply per human move. */
  function HandleClick(s: GameState, mode: Mode, idx: Index): (t: GameState)
    ensures !s.playing || s.board[idx] != Empty ==> t == s
    ensures s.playing && s.board[idx] == Empty ==>
      t == (if ReplyDue(Play(s, idx, s.current), mode) then CpuStep(Play(s, idx, s.current))
            else Play(s, idx, s.current))
  {
    if !s.playing || s.board[idx] != Empty then s
    else
      var t := Play(s, idx, s.current);
      if ReplyDue(t, mode) then CpuStep(t) else t
  }

  /** What holds between clicks: `playing` matches the board, the marks alternate, and in
      CPU mode the human (X) is the one to move. */
  predicate Settled(s: GameState, mode: Mode)
  {
    Consistent(s) && Balanced(s) && (mode == Cpu && s.playing ==> s.current == X)
  }

  /** The corrected click handler keeps the game settled, in either mode. */
  lemma ClickKeepsSettled(s: GameState, mode: Mode, idx: Index)
    requires Settled(s, mode)
    ensures Settled(HandleClick(s, mode, idx), mode)
  {
    if s.playing && s.board[idx] == Empty {
      var t := Play(s, idx, s.current);
      PlayKeepsConsistent(s, idx, s.current);
      PlayKeepsBalance(s, idx);
      if ReplyDue(t, mode) {
        CpuStepKeepsBalance(t);
      }
    }
  }

  /** The board after X's first mark at `idx` and O's at `m`. */
  lemma TwoMarksContinue(idx: Index, m: Index)
    requires idx != m
    ensures Continues(CheckGame(EmptyBoard[idx := Mark(X)][m := Mark(O)]))
  {
    var b := EmptyBoard[idx := Mark(X)][m := Mark(O)];
    forall x, y | 0 <= x < y < 9 ensures !(b[x].Mark? && b[x] == b[y]) {
    }
    NoRepeatNoWinner(b);
    var j: Index := if idx != 0 && m != 0 then 0 else if idx != 1 && m != 1 then 1 else 2;
    assert b[j] == Empty;
  }

  /** X's first mark leaves the game undecided. */
  lemma OneMarkContinues(idx: Index)
    ensures Continues(CheckGame(EmptyBoard[idx := Mark(X)]))
  {
    var b := EmptyBoard[idx := Mark(X)];
    forall x, y | 0 <= x < y < 9 ensures !(b[x].Mark? && b[x] == b[y]) {
    }
    NoRepeatNoWinner(b);
    var j: Index := if idx != 0 then 0 else 1;
    assert b[j] == Empty;
  }

  /** X's opening move on a new game: one X, no O, O to move. */
  lemma FirstMove(idx: Index)
    ensures Play(NewGame, idx, X) == GameState(EmptyBoard[idx := Mark(X)], O, true)
    ensures Marks(Play(NewGame, idx, X).board, X) == 1
    ensures Marks(Play(NewGame, idx, X).board, O) == 0
  {
    OneMarkContinues(idx);
    CountAbsent(EmptyBoard, Mark(X));
    CountAbsent(EmptyBoard, Mark(O));
    CountUpdate(EmptyBoard, idx, Mark(X), Mark(X));
    CountUpdate(EmptyBoard, idx, Mark(X), Mark(O));
  }

  /** As written, the first click of a CPU game is answered by two O marks: the board
      then holds one X and two O, which no alternating game reaches. */
  lemma ClickAsWrittenRepliesTwice(idx: Index)
    ensures Marks(HandleClickAsWritten(NewGame, Cpu, idx).board, X) == 1
    ensures Marks(HandleClickAsWritten(NewGame, Cpu, idx).board, O) == 2
    ensures !Balanced(HandleClickAsWritten(NewGame, Cpu, idx))
  {
    FirstMove(idx);
    var s1 := Play(NewGame, idx, X);
    var s2 := CpuStep(s1);
    CpuStepAddsO(s1);
    var m1 := BestMoveSpec(s1.board, O).value;
    TwoMarksContinue(idx, m1);
    assert s2.playing;
    CpuStepAddsO(s2);
  }

  /** The corrected handler answers the first click of a CPU game with one O. */
  lemma ClickRepliesOnce(idx: Index)
    ensures Marks(HandleClick(NewGame, Cpu, idx).board, X) == 1
    ensures Marks(HandleClick(NewGame, Cpu, idx).board, O) == 1
  {
    FirstMove(idx);
    CpuStepAddsO(Play(NewGame, idx, X));
  }

  /** In every live CPU game the corrected handler adds X's mark and, unless that move ends
      the game, exactly one O. */
  lemma ClickOneReplyAlways(s: GameState, idx: Index)
    requires Settled(s, Cpu) && s.playing && s.board[idx] == Empty
    ensures Marks(HandleClick(s, Cpu, idx).board, X) == Marks(s.board, X) + 1
    ensures Marks(HandleClick(s, Cpu, idx).board, O) == Marks(s.board, O) + (if Play(s, idx, X).playing then 1 else 0)
  {
    CountUpdate(s.board, idx, Mark(X), Mark(X));
    CountUpdate(s.board, idx, Mark(X), Mark(O));
    PlayKeepsConsistent(s, idx, X);
    if Play(s, idx, X).playing {
      CpuStepAddsO(Play(s, idx, X));
    }
  }

  /** As written, in every live CPU game where neither X's move nor the first reply ends the
      game, one click adds one X and two O, and the marks no longer alternate. */
  lemma ClickAsWrittenTwoReplies(s: GameState, idx: Index)
    requires Settled(s, Cpu) && s.playing && s.board[idx] == Empty
    requires Play(s, idx, X).playing && CpuStep(Play(s, idx, X)).playing
    ensures Marks(HandleClickAsWritten(s, Cpu, idx).board, X) == Marks(s.board, X) + 1
    ensures Marks(HandleClickAsWritten(s, Cpu, idx).board, O) == Marks(s.board, O) + 2
    ensures !Balanced(HandleClickAsWritten(s, Cpu, idx))
  {
    var t := Play(s, idx, X);
    CountUpdate(s.board, idx, Mark(X), Mark(X));
    CountUpdate(s.board, idx, Mark(X), Mark(O));
    PlayKeepsConsistent(s, idx, X);
    CpuStepAddsO(t);
    PlayKeepsBalance(s, idx);
    CpuStepKeepsBalance(t);
    CpuStepAddsO(CpuStep(t));
  }

  /** The game of script.js: the board array and the variables `playMove` and `reset` update. */
  class Game {
    var board: array<Cell>
    var currentPlayer: Player
    var playing: bool
    var mode: Mode

    /** The board has nine cells and `playing` matches it. */
    ghost predicate Valid()
      reads this, board
    {
      board.Length == 9 && Consistent(State())
    }

    /** The variables as a value. */
    ghost function State(): GameState
      reads this, board
      requires board.Length == 9
    {
      GameState(board[..], currentPlayer, playing)
    }

    /** Start-up: an empty board, X to move, playing, two-player mode. */
    constructor ()
      ensures Valid() && State() == NewGame && mode == Pvp
    {
      board := new Cell[9](_ => Empty);
      currentPlayer := X;
      playing := true;
      mode := Pvp;
      new;
      assert board[..] == EmptyBoard;
    }

    /** `reset()`: a fresh empty board, X to move, playing; the mode is kept. */
    method Reset()
      modifies this
      ensures Valid() && State() == NewGame && mode == old(mode) && fresh(board)
    {
      board := new Cell[9](_ => Empty);
      currentPlayer := X;
      playing := true;
      assert board[..] == EmptyBoard;
    }

    /** The mode selector's change handler: set `mode`, then `reset()`. */
    method SelectMode(m: Mode)
      modifies this
      ensures Valid() && State() == NewGame && mode == m
    {
      mode := m;
      Reset();
    }

    /** `playMove(idx, player)`: nothing on an occupied cell or a finished game; otherwise
        mark the cell, then end the game on a win or tie or pass the turn. Returns whether
        it schedules a CPU reply. */
    method PlayMove(idx: Index, player: Player) returns (cpuDue: bool)
      requires Valid()
      modifies this, board
      ensures Valid() && board == old(board) && mode == old(mode)
      ensures State() == Play(old(State()), idx, player)
      ensures cpuDue <==> old(board[idx]) == Empty && old(playing) && ReplyDue(State(), mode)
    {
      cpuDue := false;
      if board[idx] != Empty || !playing { return; }
      ghost var s := State();
      board[idx] := Mark(player);
      assert board[..] == s.board[idx := Mark(player)];
      var res := CheckGame(board[..]);
      if res.winner.Some? {
        playing := false;
      } else if res.tie {
        playing := false;
      } else {
        currentPlayer := Other(player);
        cpuDue := mode == Cpu && currentPlayer == O;
      }
    }

    /** The CPU's reply: `bestMove(board, 'O')` and, unless it is null, `playMove(move, 'O')`. */
    method CpuReply()
      requires Valid()
      modifies this, board
      ensures Valid() && board == old(board) && mode == old(mode)
      ensures State() == CpuStep(old(State()))
    {
      var move := BestMove(board, O);
      if move.Some? {
        var again := PlayMove(move.value, O);
        assert !again;
      }
    }

    /** A click on cell `idx` with a single CPU reply when one is due. */
    method Click(idx: Index)
      requires Valid()
      modifies this, board
      ensures Valid() && board == old(board) && mode == old(mode)
      ensures State() == HandleClick(old(State()), mode, idx)
    {
      if !playing || board[idx] != Empty { return; }
      var due := PlayMove(idx, currentPlayer);
      if due {
        CpuReply();
      }
    }
  }
}
