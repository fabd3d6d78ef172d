/** The controller's moves as values: the state a move starts from, what
    it reports, the state it leaves, and the invariants a game keeps. */
module Moves {
  import opened Players
  import opened Board
  import opened Rules

  /** What a move reports, in place of the message and heading texts:
      nothing (the click is ignored), a win by a mark, a tie, or the game
      going on with the other player to move. */
  datatype Outcome = Ignored | Won(mark: Cell) | Tie | Continue

  /** The controller's state together with the board's contents. */
  datatype GameState = GameState(cells: seq<Cell>, round: nat, isOver: bool)

  /** A move at `index` is refused when the cell is taken or the game is over. */
  predicate Accepts(s: GameState, index: nat)
    requires |s.cells| == Size && index < Size
  {
    s.cells[index] == Empty && !s.isOver
  }

  /** One move, as a function of the state before it: the current mark is
      written first, then the win check runs, then the tie check, and only
      when neither ends the game does the round advance. */
  function Play(s: GameState, index: nat): (result: (GameState, Outcome))
    requires |s.cells| == Size && index < Size
    ensures |result.0.cells| == Size
  {
    if !Accepts(s, index) then (s, Ignored)
    else
      var mark := CurrentMark(s.round);
      var cells := s.cells[index := mark];
      if CheckWinner(cells, index, mark) then (GameState(cells, s.round, true), Won(mark))
      else if CheckTie(cells) then (GameState(cells, s.round, true), Tie)
      else (GameState(cells, s.round + 1, false), Continue)
  }

  /** The state after the reset button: an empty board, the game no longer
      over, and the round counter as it was. */
  function Restart(s: GameState): (r: GameState)
    ensures r.cells == EmptyBoard() && r.round == s.round && !r.isOver
  {
    GameState(EmptyBoard(), s.round, false)
  }

  /** The game is over exactly when some line is complete or no cell is
      empty. */
  predicate Consistent(s: GameState)
  {
    |s.cells| == Size &&
    (s.isOver <==> HasLine(s.cells, X) || HasLine(s.cells, O) || Empty !in s.cells)
  }

  /** Number of cells holding a mark. */
  function Filled(cells: seq<Cell>): (n: nat)
    ensures n <= |cells|
  {
    |cells| - multiset(cells)[Empty]
  }

  /** Since the game began at round `start` on an empty board, one cell
      was filled per round played, plus the final move if it ended the
      game. */
  predicate MovesSince(s: GameState, start: nat)
  {
    start <= s.round &&
    Filled(s.cells) == s.round - start + (if s.isOver then 1 else 0)
  }
}
