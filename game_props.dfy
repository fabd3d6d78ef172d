/** Properties of the game controller's moves and resets, stated on the
    value-level description `Moves.Play` that `PlayRound` is proved to
    follow. */
module GameProperties {
  import opened Players
  import opened Board
  import opened Rules
  import opened Moves

  /** A click is ignored exactly when the cell is taken or the game is
      over, and then nothing changes. */
  lemma IgnoredExactlyWhenRefused(s: GameState, index: nat)
    requires |s.cells| == Size && index < Size
    ensures Play(s, index).1 == Ignored <==> s.cells[index] != Empty || s.isOver
    ensures Play(s, index).1 == Ignored ==> Play(s, index).0 == s
  {
  }

  /** An accepted move writes the current player's mark into the chosen
      cell and leaves the other eight cells as they were. */
  lemma AcceptedMoveWritesOneCell(s: GameState, index: nat)
    requires |s.cells| == Size && index < Size && Accepts(s, index)
    ensures var after := Play(s, index).0.cells;
            after[index] == CurrentMark(s.round) &&
            forall j | 0 <= j < Size && j != index :: after[j] == s.cells[j]
  {
  }

  /** What an accepted move reports: a win when the win check succeeds, a
      tie when it does not and no cell is left empty, otherwise the round
      advances and the other player is to move. A move that ends the game
      leaves the round counter alone. */
  lemma AcceptedMoveOutcome(s: GameState, index: nat)
    requires |s.cells| == Size && index < Size && Accepts(s, index)
    ensures var (after, outcome) := Play(s, index);
            var mark := CurrentMark(s.round);
            (outcome == Won(mark) <==> CheckWinner(after.cells, index, mark)) &&
            (outcome == Tie <==> !CheckWinner(after.cells, index, mark) && Empty !in after.cells) &&
            (outcome.Won? ==> outcome == Won(mark)) &&
            (outcome != Continue ==> after.isOver && after.round == s.round) &&
            (outcome == Continue ==>
               !after.isOver && after.round == s.round + 1 &&
               CurrentMark(after.round) == Opponent(mark))
  {
    MarksAlternate(s.round);
  }

  /** In a game in progress, a move that completes a line is a win, even
      when it also fills the last empty cell. */
  lemma {:induction false} WinBeforeTie(s: GameState, index: nat)
    requires Consistent(s) && index < Size && Accepts(s, index)
    requires HasLine(s.cells[index := CurrentMark(s.round)], CurrentMark(s.round))
    ensures Play(s, index).1 == Won(CurrentMark(s.round))
    ensures Play(s, index).0.isOver && Play(s, index).0.round == s.round
  {
    NewLineRunsThroughMove(s.cells, index, CurrentMark(s.round));
  }

  /** Every move keeps "over exactly when a line is complete or the board
      is full". */
  lemma {:induction false} PlayKeepsConsistent(s: GameState, index: nat)
    requires Consistent(s) && index < Size
    ensures Consistent(Play(s, index).0)
  {
    if Accepts(s, index) {
      var mark := CurrentMark(s.round);
      NewLineRunsThroughMove(s.cells, index, mark);
      OtherMarkGainsNoLine(s.cells, index, mark, Opponent(mark));
    }
  }

  /** A reported win belongs to the player who moved, and the other
      player has no line. */
  lemma {:induction false} WonOnlyByMover(s: GameState, index: nat)
    requires Consistent(s) && index < Size
    ensures var (after, outcome) := Play(s, index);
            outcome.Won? ==>
              outcome.mark == CurrentMark(s.round) &&
              HasLine(after.cells, outcome.mark) &&
              !HasLine(after.cells, Opponent(outcome.mark))
  {
    var mark := CurrentMark(s.round);
    OtherMarkGainsNoLine(s.cells, index, mark, Opponent(mark));
  }

  /** A reported tie is a full board on which neither player has a line. */
  lemma {:induction false} TieHasNoLine(s: GameState, index: nat)
    requires Consistent(s) && index < Size
    ensures var (after, outcome) := Play(s, index);
            outcome == Tie ==>
              Empty !in after.cells && !HasLine(after.cells, X) && !HasLine(after.cells, O)
  {
    if Accepts(s, index) {
      var mark := CurrentMark(s.round);
      NewLineRunsThroughMove(s.cells, index, mark);
      OtherMarkGainsNoLine(s.cells, index, mark, Opponent(mark));
    }
  }

  /** Writing a mark into an empty cell fills one more cell. */
  lemma FillOne(cells: seq<Cell>, index: nat, m: Cell)
    requires index < |cells| && cells[index] == Empty && m != Empty
    ensures Filled(cells[index := m]) == Filled(cells) + 1
  {
    assert multiset(cells[index := m]) == multiset(cells) - multiset{Empty} + multiset{m};
  }

  /** Every move keeps the count of filled cells in step with the rounds
      played since the game began. */
  lemma {:induction false} PlayCountsMoves(s: GameState, index: nat, start: nat)
    requires |s.cells| == Size && index < Size && MovesSince(s, start)
    ensures MovesSince(Play(s, index).0, start)
  {
    if Accepts(s, index) {
      FillOne(s.cells, index, CurrentMark(s.round));
    }
  }

  /** A game in progress has been going on for fewer than nine rounds. */
  lemma {:induction false} GameLastsAtMostNineMoves(s: GameState, start: nat)
    requires Consistent(s) && MovesSince(s, start) && !s.isOver
    ensures s.round - start < Size
  {
    assert Empty in multiset(s.cells);
  }

  lemma {:induction false} AllEmptyIsUnfilled(cells: seq<Cell>)
    requires forall i | 0 <= i < |cells| :: cells[i] == Empty
    ensures Filled(cells) == 0
  {
    if cells != [] {
      assert cells == [cells[0]] + cells[1..];
      AllEmptyIsUnfilled(cells[1..]);
    }
  }

  /** After the reset button a new game begins: the board is empty, the
      game is in progress, and the first mover is the one the carried-over
      round counter selects. */
  lemma {:induction false} RestartBeginsAGame(s: GameState)
    ensures Consistent(Restart(s)) && !Restart(s).isOver
    ensures MovesSince(Restart(s), s.round)
    ensures CurrentMark(Restart(s).round) == CurrentMark(s.round)
  {
    var r := Restart(s);
    AllEmptyIsUnfilled(r.cells);
    assert r.cells[0] == Empty;
    forall k | 0 <= k < |WinCombos|
      ensures !Owned(r.cells, WinCombos[k], X) && !Owned(r.cells, WinCombos[k], O)
    {
      assert r.cells[WinCombos[k][0]] == Empty;
    }
  }

  /** The opening move of a game never ends it: one mark makes no line
      and eight cells stay empty. */
  lemma OpeningMoveContinues(s: GameState, index: nat)
    requires s.cells == EmptyBoard() && !s.isOver && index < Size
    ensures Play(s, index) ==
            (GameState(EmptyBoard()[index := CurrentMark(s.round)], s.round + 1, false), Continue)
  {
    var mark := CurrentMark(s.round);
    var after := EmptyBoard()[index := mark];
    forall k | 0 <= k < |WinCombos|
      ensures !Owned(after, WinCombos[k], mark)
    {
      var c := WinCombos[k];
      if c[0] != index {
        assert after[c[0]] == Empty;
      } else {
        assert after[c[1]] == Empty;
      }
    }
    assert after[if index == 0 then 1 else 0] == Empty;
  }

  // ---------------------------------------------------------------------
  // Sequences of clicks.

  /** The states and reports of a sequence of clicks on the board. */
  function PlayMoves(s: GameState, moves: seq<nat>): (r: (GameState, seq<Outcome>))
    requires |s.cells| == Size
    requires forall i | 0 <= i < |moves| :: moves[i] < Size
    ensures |r.0.cells| == Size && |r.1| == |moves|
    decreases |moves|
  {
    if moves == [] then (s, [])
    else
      var step := Play(s, moves[0]);
      var rest := PlayMoves(step.0, moves[1..]);
      (rest.0, [step.1] + rest.1)
  }

  /** From any reset, any sequence of clicks keeps both invariants. */
  lemma {:induction false} PlayMovesKeepsInvariants(s: GameState, moves: seq<nat>, start: nat)
    requires Consistent(s) && MovesSince(s, start)
    requires forall i | 0 <= i < |moves| :: moves[i] < Size
    ensures Consistent(PlayMoves(s, moves).0) && MovesSince(PlayMoves(s, moves).0, start)
    decreases |moves|
  {
    if moves != [] {
      PlayKeepsConsistent(s, moves[0]);
      PlayCountsMoves(s, moves[0], start);
      PlayMovesKeepsInvariants(Play(s, moves[0]).0, moves[1..], start);
    }
  }

  /** Once a game is over, every further click is ignored. */
  lemma {:induction false} OverIsFinal(s: GameState, moves: seq<nat>)
    requires |s.cells| == Size && s.isOver
    requires forall i | 0 <= i < |moves| :: moves[i] < Size
    ensures PlayMoves(s, moves).0 == s
    ensures forall i | 0 <= i < |moves| :: PlayMoves(s, moves).1[i] == Ignored
    decreases |moves|
  {
    if moves != [] {
      OverIsFinal(s, moves[1..]);
    }
  }

  /** The first move after a reset places the mark that the carried-over
      round counter selects. */
  lemma FirstMoveAfterReset(s: GameState, index: nat)
    requires index < Size
    ensures Play(Restart(s), index).1 != Ignored
    ensures Play(Restart(s), index).0.cells[index] == CurrentMark(s.round)
  {
  }

  // ---------------------------------------------------------------------
  // Two complete games from a fresh board.

  /** A board on which every combination has a cell without `m` gives `m`
      no line. */
  lemma NoLineWhenBlocked(cells: seq<Cell>, m: Cell)
    requires |cells| == Size
    requires forall k | 0 <= k < |WinCombos| ::
               cells[WinCombos[k][0]] != m || cells[WinCombos[k][1]] != m || cells[WinCombos[k][2]] != m
    ensures !HasLine(cells, m)
  {
    forall k | 0 <= k < |WinCombos|
      ensures !Owned(cells, WinCombos[k], m)
    {
      assert |WinCombos[k]| == 3;
    }
  }

  /** X fills the last cell without completing a line: a tie. */
  lemma LastMoveTies()
    ensures Play(GameState([X, O, X, X, O, O, O, X, Empty], 8, false), 8) ==
            (GameState([X, O, X, X, O, O, O, X, X], 8, true), Tie)
  {
    var before := [X, O, X, X, O, O, O, X, Empty];
    var after := [X, O, X, X, O, O, O, X, X];
    assert before[8 := X] == after;
    assert !CheckWinner(after, 8, X) by {
      NoLineWhenBlocked(after, X);
    }
    assert Empty !in after;
    assert CurrentMark(8) == X;
    AcceptedMoveOutcome(GameState(before, 8, false), 8);
  }

  /** X fills the last cell and completes the main diagonal: a win, not a
      tie. */
  lemma LastMoveWinsOnFullBoard()
    ensures Play(GameState([X, O, X, O, X, O, O, X, Empty], 8, false), 8) ==
            (GameState([X, O, X, O, X, O, O, X, X], 8, true), Won(X))
  {
    var before := [X, O, X, O, X, O, O, X, Empty];
    var after := [X, O, X, O, X, O, O, X, X];
    assert before[8 := X] == after;
    assert Owned(after, WinCombos[6], X);
    assert CheckWinner(after, 8, X);
  }

  /** X completes the main diagonal; the next click is ignored although
      cells remain empty. */
  lemma WinThenIgnored()
    ensures var before := GameState([X, O, Empty, O, X, Empty, Empty, Empty, Empty], 4, false);
            var after := GameState([X, O, Empty, O, X, Empty, Empty, Empty, X], 4, true);
            Play(before, 8) == (after, Won(X)) && Play(after, 2) == (after, Ignored)
  {
    var before := [X, O, Empty, O, X, Empty, Empty, Empty, Empty];
    var after := [X, O, Empty, O, X, Empty, Empty, Empty, X];
    assert before[8 := X] == after;
    assert Owned(after, WinCombos[6], X);
    assert CheckWinner(after, 8, X);
  }
}
