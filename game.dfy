/** The game controller: a state machine over the round counter and the
    game-over flag, applying moves to the board and reporting their
    outcome. */
module Game {
  import opened Players
  import opened Board
  import opened Rules
  import opened Moves
  import opened GameProperties

  class GameController {
    const gameBoard: GameBoard
    var round: nat
    var isOver: bool
    /** The round at which the current game began on an empty board. */
    ghost var start: nat

    /** The board has nine cells, the game is over exactly when a line is
        complete or the board is full, and one cell was filled per round
        played since the game began. */
    ghost predicate Valid()
      reads this, gameBoard, gameBoard.board
    {
      gameBoard.Valid() && Consistent(State()) && MovesSince(State(), start)
    }

    /** The controller's state and the board's contents, as a value. */
    function State(): (s: GameState)
      reads this, gameBoard, gameBoard.board
      ensures s.round == round && s.isOver == isOver
    {
      GameState(gameBoard.Cells(), round, isOver)
    }

    /** A new controller over the page's new, empty board: round 0, game
        not over. */
    constructor (gameBoard: GameBoard)
      requires gameBoard.Valid() && gameBoard.Cells() == EmptyBoard()
      ensures Valid() && this.gameBoard == gameBoard && start == 0
      ensures round == 0 && !isOver
    {
      this.gameBoard := gameBoard;
      round := 0;
      isOver := false;
      start := 0;
      new;
      RestartBeginsAGame(GameState(gameBoard.Cells(), 0, false));
    }

    /** The mark of the player to move: X on even rounds, O on odd ones. */
    function GetCurrentPlayer(): (m: Cell)
      reads this
      ensures m != Empty
      ensures m == X <==> round % 2 == 0
    {
      CurrentMark(round)
    }

    /** A click on cell `index`. */
    method PlayRound(index: nat) returns (outcome: Outcome)
      requires Valid() && index < Size
      modifies this, gameBoard.board
      ensures Valid() && gameBoard.board == old(gameBoard.board) && start == old(start)
      ensures (State(), outcome) == Play(old(State()), index)
    {
      ghost var before := State();
      if gameBoard.GetBoardItem(index) != Empty || isOver {
        return Ignored;
      }
      var mark := GetCurrentPlayer();
      gameBoard.SetBoardItem(index, mark);
      var won := CheckWinner(gameBoard.Cells(), index, mark);
      if won {
        isOver := true;
        outcome := Won(mark);
      } else {
        var full := CheckTie(gameBoard.Cells());
        if full {
          isOver := true;
          outcome := Tie;
        } else {
          round := round + 1;
          outcome := Continue;
        }
      }
      ghost var after := Play(before, index).0;
      PlayKeepsConsistent(before, index);
      PlayCountsMoves(before, index, start);
      assert State() == after;
    }

    /** Clears the game-over flag; the round counter is left as it is, and
        the next game is counted from it. */
    method ResetRound()
      modifies this
      ensures !isOver && round == old(round) && start == round
    {
      isOver := false;
      start := round;
    }
  }

  /** The page's start-up: an empty board and a controller at round 0
      with the game in progress. */
  method NewGame() returns (game: GameController)
    ensures fresh(game) && fresh(game.gameBoard) && fresh(game.gameBoard.board)
    ensures game.Valid()
    ensures game.State() == GameState(EmptyBoard(), 0, false)
  {
    var gameBoard := new GameBoard();
    game := new GameController(gameBoard);
  }

  /** The reset button: a new empty board, then the controller's reset.
      The round counter carries over, so its parity decides who moves
      first in the next game. */
  method ResetClicked(game: GameController)
    requires game.Valid()
    modifies game, game.gameBoard
    ensures fresh(game.gameBoard.board)
    ensures game.Valid() && game.start == game.round
    ensures game.State() == Restart(old(game.State()))
    ensures game.GetCurrentPlayer() == old(game.GetCurrentPlayer())
  {
    game.gameBoard.ResetBoard();
    game.ResetRound();
    RestartBeginsAGame(old(game.State()));
  }

  /** A page session: X opens at cell 0, the reset button is pressed, and
      the first click of the next game, again on cell 0, is accepted and
      places O, because the round counter carried over. */
  method SecondGameAfterReset() returns (first: Outcome, second: Outcome, opener: Cell)
    ensures first == Continue && second == Continue && opener == O
  {
    var game := NewGame();
    OpeningMoveContinues(game.State(), 0);
    first := game.PlayRound(0);
    ResetClicked(game);
    OpeningMoveContinues(game.State(), 0);
    second := game.PlayRound(0);
    opener := game.gameBoard.GetBoardItem(0);
  }
}
