/**
 * The rules of chorus-lapilli, the tic-tac-toe variant of the React `Game`
 * component: three pieces each are placed in turns 0..5, after which a
 * player moves one of their pieces to an adjacent empty square; whoever
 * holds the centre must either win with the move or move the centre piece.
 */
module ChorusLapilli {
  import opened Wrappers

  datatype Player = X | O

  /** A square holds a player's symbol or nothing (`null`). */
  type Square = Option<Player>

  /** The nine squares in row-major order. */
  type Board = seq<Square>

  /**
   * The component's state: the boards played so far, the step shown, whose
   * turn it is, the selected square (-1 for none) and the invalid-move flag.
   */
  datatype GameState = GameState(
    history: seq<Board>,
    stepNumber: int,
    xIsNext: bool,
    selectedPiece: int,
    invalidMove: bool)

  const Empty: Board := seq(9, _ => None)

  /** The state built by the constructor. */
  const Initial: GameState := GameState([Empty], 0, true, -1, false)

  /** The square index of the centre piece. */
  const Centre := 4

  /** The eight winning lines, in the order they are searched. */
  const Lines: seq<(int, int, int)> :=
    [(0, 1, 2), (3, 4, 5), (6, 7, 8),
     (0, 3, 6), (1, 4, 7), (2, 5, 8),
     (0, 4, 8), (2, 4, 6)]

  /** Line `k` of the search order; its three squares are on the board. */
  function Line(k: int): (t: (int, int, int))
    requires 0 <= k < |Lines|
    ensures 0 <= t.0 < 9 && 0 <= t.1 < 9 && 0 <= t.2 < 9
  {
    Lines[k]
  }

  function Row(i: int): int { i / 3 }
  function Col(i: int): int { i % 3 }

  /** Line `k` holds three pieces of `p`. */
  predicate Won(b: Board, k: int, p: Player)
    requires |b| == 9 && 0 <= k < |Lines|
  {
    var (x, y, z) := Line(k);
    b[x] == Some(p) && b[y] == Some(p) && b[z] == Some(p)
  }

  /** Some player holds all of line `k`. */
  predicate Claimed(b: Board, k: int)
    requires |b| == 9 && 0 <= k < |Lines|
  {
    Won(b, k, X) || Won(b, k, O)
  }

  lemma WonClaimed(b: Board, k: int, p: Player)
    requires |b| == 9 && 0 <= k < |Lines| && Won(b, k, p)
    ensures Claimed(b, k)
  {
    match p
    case X =>
    case O =>
  }

  /** The symbol of the first line at or after `k` whose squares hold one player's pieces. */
  function FirstWin(b: Board, k: int): Option<Player>
    requires |b| == 9 && 0 <= k <= |Lines|
    decreases |Lines| - k
  {
    if k == |Lines| then None
    else
      var (x, y, z) := Line(k);
      if b[x].Some? && b[x] == b[y] && b[x] == b[z] then b[x] else FirstWin(b, k + 1)
  }

  /**
   * The search from line `k` finds a player only on a line that player
   * holds with no claimed line before it, and finds none exactly when no
   * line from `k` on is claimed.
   */
  lemma {:induction false} FirstWinLines(b: Board, k: int)
    requires |b| == 9 && 0 <= k <= |Lines|
    ensures FirstWin(b, k).Some? ==>
      exists j :: k <= j < |Lines| && Won(b, j, FirstWin(b, k).value) && forall m :: k <= m < j ==> !Claimed(b, m)
    ensures FirstWin(b, k).None? <==> forall j :: k <= j < |Lines| ==> !Claimed(b, j)
    decreases |Lines| - k
  {
    if k < |Lines| {
      var (x, y, z) := Line(k);
      if b[x].Some? && b[x] == b[y] && b[x] == b[z] {
        assert Won(b, k, b[x].value);
        WonClaimed(b, k, b[x].value);
      } else {
        assert !Claimed(b, k);
        FirstWinLines(b, k + 1);
      }
    }
  }

  /** The winner of a board, as `calculateWinner` reports it. */
  function Winner(b: Board): Option<Player>
    requires |b| == 9
  {
    FirstWin(b, 0)
  }

  /**
   * The winner is the player holding the first line, in search order, that
   * one player holds entirely; there is none exactly when no line is claimed.
   */
  lemma WinnerLines(b: Board)
    requires |b| == 9
    ensures Winner(b).Some? ==>
      exists j :: 0 <= j < |Lines| && Won(b, j, Winner(b).value) && forall m :: 0 <= m < j ==> !Claimed(b, m)
    ensures Winner(b).None? <==> forall j :: 0 <= j < |Lines| ==> !Claimed(b, j)
  {
    FirstWinLines(b, 0);
  }

  /** `calculateWinner`: the search loop over the eight lines. */
  method CalculateWinner(squares: array<Square>) returns (w: Option<Player>)
    requires squares.Length == 9
    ensures w == Winner(squares[..])
  {
    ghost var board := squares[..];
    var i := 0;
    while i < |Lines|
      invariant 0 <= i <= |Lines|
      invariant FirstWin(board, i) == FirstWin(board, 0)
    {
      var (a, b, c) := Line(i);
      if squares[a].Some? && squares[a] == squares[b] && squares[a] == squares[c] {
        return squares[a];
      }
      i := i + 1;
    }
    return None;
  }

  /**
   * `adjacent`: whether square `i` is one king's move away from the
   * selected square; never when nothing is selected.
   */
  function Adjacent(selected: int, i: int): (r: bool)
    requires -1 <= selected < 9 && 0 <= i < 9
    ensures r <==>
      selected != -1 && selected != i &&
      -1 <= Row(i) - Row(selected) <= 1 && -1 <= Col(i) - Col(selected) <= 1
  {
    if selected == -1 then false
    else
      var dx := Abs(Col(i) - Col(selected));
      var dy := Abs(Row(i) - Row(selected));
      dx + dy == 1 || (dx == 1 && dy == 1)
  }

  function Abs(n: int): int { if n < 0 then -n else n }

  /** Adjacency of two squares does not depend on which one is selected. */
  lemma AdjacentSymmetric(a: int, b: int)
    requires 0 <= a < 9 && 0 <= b < 9
    ensures Adjacent(a, b) == Adjacent(b, a)
  {
  }

  /**
   * The expression `this.state.pieceSelected === -1`: the state has no field
   * of that name, the read yields `undefined`, and the comparison is false.
   */
  function HasSelected(s: GameState): bool
  {
    false
  }

  /** The symbol of the player to move. */
  function Mover(s: GameState): Player
  {
    if s.xIsNext then X else O
  }

  /** The shape every state of the component has. */
  predicate WellShaped(s: GameState)
  {
    |s.history| >= 1 &&
    (forall k :: 0 <= k < |s.history| ==> |s.history[k]| == 9) &&
    0 <= s.stepNumber < |s.history| &&
    -1 <= s.selectedPiece < 9
  }

  /** The board shown: the one at `stepNumber`. */
  function Current(s: GameState): (b: Board)
    requires WellShaped(s)
    ensures |b| == 9
  {
    s.history[s.stepNumber]
  }

  /** Movement phase: more than five steps have been played. */
  predicate LapilliMode(s: GameState)
  {
    s.stepNumber > 5
  }

  /**
   * The centre rule: a move by the holder of the centre is refused unless
   * it wins or takes the piece off the centre.
   */
  predicate CentreRuleViolated(board: Board, after: Board, p: Player, from: int)
    requires |board| == 9 && |after| == 9
  {
    board[Centre] == Some(p) && Winner(after).None? && from != Centre
  }

  /** The board after moving the piece on `from` to `to`. */
  function Move(board: Board, from: int, to: int, p: Player): (after: Board)
    requires |board| == 9 && 0 <= from < 9 && 0 <= to < 9
    ensures |after| == 9
  {
    board[to := Some(p)][from := None]
  }

  /**
   * The `setState` at the end of `handleClick`: history grows by `squares`
   * and the turn passes only when nothing stays selected and the move was
   * not refused; otherwise the truncated history is kept.
   */
  function Commit(s: GameState, history: seq<Board>, squares: Board, select: int, invalid: bool): GameState
    requires |history| >= 1
  {
    var update := select == -1 && !invalid;
    GameState(
      if update then history + [squares] else history,
      if update then |history| else |history| - 1,
      if update then !s.xIsNext else s.xIsNext,
      select,
      invalid)
  }

  /** The state after a click on square `i`, as `handleClick` computes it. */
  function Clicked(s: GameState, i: int): GameState
    requires WellShaped(s) && 0 <= i < 9
  {
    var history := s.history[..s.stepNumber + 1];
    var board := Current(s);
    var p := Mover(s);
    if Winner(board).Some? then s
    else if !LapilliMode(s) && board[i] == None then
      Commit(s, history, board[i := Some(p)], s.selectedPiece, false)
    else if LapilliMode(s) && !HasSelected(s) && board[i] == Some(p) then
      Commit(s, history, board, i, false)
    else if LapilliMode(s) && board[i] == None && Adjacent(s.selectedPiece, i) then
      var after := Move(board, s.selectedPiece, i, p);
      Commit(s, history, after, -1, CentreRuleViolated(board, after, p, s.selectedPiece))
    else s
  }

  /** The state after `jumpTo(step)`. */
  function Jumped(s: GameState, step: int): GameState
  {
    s.(stepNumber := step, xIsNext := step % 2 == 0, selectedPiece := -1, invalidMove := false)
  }

  /** The number of `p`'s pieces on a board. */
  function Count(b: Board, p: Player): nat
  {
    if b == [] then 0 else (if b[0] == Some(p) then 1 else 0) + Count(b[1..], p)
  }

  /** How many pieces `p` has after `k` steps: one per own turn, at most three. */
  function Placed(k: int, p: Player): int
  {
    var n := if p == X then (k + 1) / 2 else k / 2;
    if n < 3 then n else 3
  }

  /**
   * The states the game can reach: well shaped, X to move at even steps,
   * a selection only in the movement phase and only on the mover's own
   * piece, and every board of history holding the pieces its step implies.
   */
  predicate Valid(s: GameState)
  {
    WellShaped(s) &&
    s.xIsNext == (s.stepNumber % 2 == 0) &&
    (s.selectedPiece != -1 ==> LapilliMode(s) && Current(s)[s.selectedPiece] == Some(Mover(s))) &&
    forall k :: 0 <= k < |s.history| ==>
      Count(s.history[k], X) == Placed(k, X) && Count(s.history[k], O) == Placed(k, O)
  }

  /** Writing `v` into square `k` changes `p`'s count by what is removed and added. */
  lemma {:induction false} CountUpdate(b: Board, k: int, v: Square, p: Player)
    requires 0 <= k < |b|
    ensures Count(b[k := v], p) ==
      Count(b, p) - (if b[k] == Some(p) then 1 else 0) + (if v == Some(p) then 1 else 0)
  {
    if k > 0 {
      CountUpdate(b[1..], k - 1, v, p);
      assert b[k := v][1..] == b[1..][k - 1 := v];
    }
  }

  /** A board without pieces counts none. */
  lemma {:induction false} CountNone(b: Board, p: Player)
    requires forall k :: 0 <= k < |b| ==> b[k] == None
    ensures Count(b, p) == 0
  {
    if b != [] {
      CountNone(b[1..], p);
    }
  }

  /** The constructor's state is a reachable state. */
  lemma InitialValid()
    ensures Valid(Initial)
  {
    CountNone(Empty, X);
    CountNone(Empty, O);
  }

  /** Once the board shown has a winner, a click changes nothing. */
  lemma WinnerFreezes(s: GameState, i: int)
    requires WellShaped(s) && 0 <= i < 9
    requires Winner(Current(s)).Some?
    ensures Clicked(s, i) == s
  {
  }

  /**
   * In the placement phase a click on an empty square places the mover's
   * piece there, appends the board to the history cut after the step shown,
   * advances the step and passes the turn.
   */
  lemma Placement(s: GameState, i: int)
    requires Valid(s) && 0 <= i < 9
    requires Winner(Current(s)).None? && !LapilliMode(s) && Current(s)[i] == None
    ensures Clicked(s, i) == GameState(
      s.history[..s.stepNumber + 1] + [Current(s)[i := Some(Mover(s))]],
      s.stepNumber + 1, !s.xIsNext, -1, false)
  {
  }

  /** During placement, a click on an occupied square changes nothing. */
  lemma OccupiedDuringPlacement(s: GameState, i: int)
    requires WellShaped(s) && 0 <= i < 9
    requires !LapilliMode(s) && Current(s)[i] != None
    ensures Clicked(s, i) == s
  {
  }

  /**
   * In the movement phase a click on one of the mover's pieces selects it,
   * even when another piece is selected already; the history (cut after the
   * step shown), the step and the turn stay.
   */
  lemma Selection(s: GameState, i: int)
    requires WellShaped(s) && 0 <= i < 9
    requires Winner(Current(s)).None? && LapilliMode(s) && Current(s)[i] == Some(Mover(s))
    ensures Clicked(s, i) == GameState(
      s.history[..s.stepNumber + 1], s.stepNumber, s.xIsNext, i, false)
  {
  }

  /**
   * A move to an adjacent empty square that breaks the centre rule is
   * refused: the flag is set, the selection dropped, and the history cut
   * after the step shown keeps its length; the turn does not pass.
   */
  lemma RefusedMove(s: GameState, i: int)
    requires WellShaped(s) && 0 <= i < 9
    requires Winner(Current(s)).None? && LapilliMode(s) && Current(s)[i] == None
    requires Adjacent(s.selectedPiece, i)
    requires CentreRuleViolated(Current(s), Move(Current(s), s.selectedPiece, i, Mover(s)), Mover(s), s.selectedPiece)
    ensures Clicked(s, i) == GameState(
      s.history[..s.stepNumber + 1], s.stepNumber, s.xIsNext, -1, true)
  {
  }

  /**
   * A move to an adjacent empty square within the centre rule moves the
   * selected piece, appends the board and passes the turn.
   */
  lemma AcceptedMove(s: GameState, i: int)
    requires WellShaped(s) && 0 <= i < 9
    requires Winner(Current(s)).None? && LapilliMode(s) && Current(s)[i] == None
    requires Adjacent(s.selectedPiece, i)
    requires !CentreRuleViolated(Current(s), Move(Current(s), s.selectedPiece, i, Mover(s)), Mover(s), s.selectedPiece)
    ensures Clicked(s, i) == GameState(
      s.history[..s.stepNumber + 1] + [Move(Current(s), s.selectedPiece, i, Mover(s))],
      s.stepNumber + 1, !s.xIsNext, -1, false)
  {
  }

  /**
   * In the movement phase a click on an empty square that is not adjacent
   * to the selection (or with nothing selected), or on the opponent's
   * piece, changes nothing.
   */
  lemma IgnoredMove(s: GameState, i: int)
    requires WellShaped(s) && 0 <= i < 9
    requires LapilliMode(s)
    requires Current(s)[i] != Some(Mover(s))
    requires Current(s)[i] == None ==> !Adjacent(s.selectedPiece, i)
    ensures Clicked(s, i) == s
  {
  }

  /** A placement keeps the piece counts of the history in step. */
  lemma PlacementCounts(s: GameState, i: int)
    requires Valid(s) && 0 <= i < 9 && !LapilliMode(s) && Current(s)[i] == None
    ensures Count(Current(s)[i := Some(Mover(s))], X) == Placed(s.stepNumber + 1, X)
    ensures Count(Current(s)[i := Some(Mover(s))], O) == Placed(s.stepNumber + 1, O)
  {
    CountUpdate(Current(s), i, Some(Mover(s)), X);
    CountUpdate(Current(s), i, Some(Mover(s)), O);
  }

  /** A move keeps both players at three pieces. */
  lemma MoveCounts(s: GameState, i: int)
    requires Valid(s) && 0 <= i < 9 && LapilliMode(s) && Current(s)[i] == None
    requires Adjacent(s.selectedPiece, i)
    ensures Count(Move(Current(s), s.selectedPiece, i, Mover(s)), X) == Placed(s.stepNumber + 1, X)
    ensures Count(Move(Current(s), s.selectedPiece, i, Mover(s)), O) == Placed(s.stepNumber + 1, O)
  {
    var b, p, from := Current(s), Mover(s), s.selectedPiece;
    var placed := b[i := Some(p)];
    assert placed[from] == Some(p);
    CountUpdate(b, i, Some(p), X);
    CountUpdate(b, i, Some(p), O);
    CountUpdate(placed, from, None, X);
    CountUpdate(placed, from, None, O);
  }

  /**
   * Appending a board with the piece counts of the next step to the history
   * cut after the step shown, and passing the turn, reaches a reachable state.
   */
  lemma AppendValid(s: GameState, last: Board)
    requires Valid(s) && |last| == 9
    requires Count(last, X) == Placed(s.stepNumber + 1, X) && Count(last, O) == Placed(s.stepNumber + 1, O)
    ensures Valid(GameState(s.history[..s.stepNumber + 1] + [last], s.stepNumber + 1, !s.xIsNext, -1, false))
  {
  }

  /**
   * Keeping the history cut after the step shown, the step and the turn,
   * with nothing selected or one of the mover's pieces selected in the
   * movement phase, reaches a reachable state.
   */
  lemma StayValid(s: GameState, select: int, invalid: bool)
    requires Valid(s) && -1 <= select < 9
    requires select != -1 ==> LapilliMode(s) && Current(s)[select] == Some(Mover(s))
    ensures Valid(GameState(s.history[..s.stepNumber + 1], s.stepNumber, s.xIsNext, select, invalid))
  {
    var t := GameState(s.history[..s.stepNumber + 1], s.stepNumber, s.xIsNext, select, invalid);
    assert Current(t) == Current(s);
  }

  /** Every click takes a reachable state to a reachable state. */
  lemma ClickedValid(s: GameState, i: int)
    requires Valid(s) && 0 <= i < 9
    ensures Valid(Clicked(s, i))
  {
    var board, p := Current(s), Mover(s);
    if Winner(board).Some? {
      WinnerFreezes(s, i);
    } else if !LapilliMode(s) && board[i] == None {
      Placement(s, i);
      PlacementCounts(s, i);
      AppendValid(s, board[i := Some(p)]);
    } else if LapilliMode(s) && board[i] == Some(p) {
      Selection(s, i);
      StayValid(s, i, false);
    } else if LapilliMode(s) && board[i] == None && Adjacent(s.selectedPiece, i) {
      var after := Move(board, s.selectedPiece, i, p);
      if CentreRuleViolated(board, after, p, s.selectedPiece) {
        RefusedMove(s, i);
        StayValid(s, -1, true);
      } else {
        AcceptedMove(s, i);
        MoveCounts(s, i);
        AppendValid(s, after);
      }
    } else if LapilliMode(s) {
      IgnoredMove(s, i);
    } else {
      OccupiedDuringPlacement(s, i);
    }
  }

  /** Jumping to any step of the history reaches a reachable state. */
  lemma JumpedValid(s: GameState, step: int)
    requires Valid(s) && 0 <= step < |s.history|
    ensures Valid(Jumped(s, step))
  {
  }

  /** In a reachable state neither player has more than three pieces on the board shown. */
  lemma AtMostThree(s: GameState, p: Player)
    requires Valid(s)
    ensures Count(Current(s), p) <= 3
    ensures LapilliMode(s) ==> Count(Current(s), p) == 3
  {
  }

  /** `slice()` of a board: a fresh array holding its squares. */
  method Slice(b: Board) returns (a: array<Square>)
    ensures fresh(a) && a[..] == b
  {
    a := new Square[|b|](k requires 0 <= k < |b| => b[k]);
  }

  /** The `Game` component, holding its state record. */
  class Game {
    var state: GameState

    /** The initial state: one empty board, step 0, X to move, nothing selected. */
    constructor ()
      ensures state == Initial
      ensures Valid(state)
    {
      state := Initial;
      InitialValid();
    }

    /**
     * `handleClick(i)`: works on a copy of the squares shown, then replaces
     * the whole state record.
     */
    method HandleClick(i: int)
      requires WellShaped(state) && 0 <= i < 9
      modifies this
      ensures state == Clicked(old(state), i)
    {
      ghost var s := state;
      var history := state.history[..state.stepNumber + 1];
      var current := history[|history| - 1];
      assert current == Current(s);
      var squares := Slice(current);

      var lapilliMode := state.stepNumber > 5;
      var hasSelected := HasSelected(state);
      var playerSymbol := if state.xIsNext then X else O;
      var invalidMove := false;

      var winner := CalculateWinner(squares);
      if winner.Some? {
        return;
      }

      var piece := squares[i];
      var select := state.selectedPiece;

      if !lapilliMode && piece == None {
        squares[i] := Some(playerSymbol);
        assert squares[..] == current[i := Some(playerSymbol)];
        assert Clicked(s, i) == Commit(s, history, squares[..], select, invalidMove);
      } else if lapilliMode && !hasSelected && squares[i] == Some(playerSymbol) {
        select := i;
        assert Clicked(s, i) == Commit(s, history, squares[..], select, invalidMove);
      } else if lapilliMode && piece == None && Adjacent(state.selectedPiece, i) {
        var testSquares := Slice(squares[..]);
        testSquares[i] := Some(playerSymbol);
        testSquares[state.selectedPiece] := None;
        ghost var after := Move(current, state.selectedPiece, i, playerSymbol);
        assert testSquares[..] == after;

        var testWinner := CalculateWinner(testSquares);
        if squares[Centre] == Some(playerSymbol) && testWinner == None && state.selectedPiece != Centre {
          invalidMove := true;
        }
        assert invalidMove == CentreRuleViolated(current, after, playerSymbol, state.selectedPiece);

        squares[i] := Some(playerSymbol);
        squares[state.selectedPiece] := None;
        assert squares[..] == after;
        select := -1;
        assert Clicked(s, i) == Commit(s, history, squares[..], select, invalidMove);
      } else {
        return;
      }

      var updateBoard := select == -1 && !invalidMove;
      state := GameState(
        if updateBoard then history + [squares[..]] else history,
        if updateBoard then |history| else |history| - 1,
        if updateBoard then !state.xIsNext else state.xIsNext,
        select,
        invalidMove);
    }

    /** `jumpTo(step)`: show an earlier step; the history is kept. */
    method JumpTo(step: int)
      requires WellShaped(state) && 0 <= step < |state.history|
      modifies this
      ensures state == Jumped(old(state), step)
      ensures Valid(old(state)) ==> Valid(state)
    {
      if Valid(state) {
        JumpedValid(state, step);
      }
      state := state.(stepNumber := step, xIsNext := step % 2 == 0, selectedPiece := -1, invalidMove := false);
    }
  }
}
