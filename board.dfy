/** The game board: a single object owning an array of nine cells. */
module Board {
  import opened Players

  /** Number of cells of the 3x3 board. */
  const Size: nat := 9

  /** The contents of a freshly created or reset board. */
  function EmptyBoard(): (cells: seq<Cell>)
    ensures |cells| == Size
    ensures forall i | 0 <= i < Size :: cells[i] == Empty
  {
    seq(Size, _ => Empty)
  }

  class GameBoard {
    var board: array<Cell>

    ghost predicate Valid()
      reads this
    {
      board.Length == Size
    }

    /** The current contents of the board, as a value. */
    function Cells(): (cells: seq<Cell>)
      reads this, board
      ensures |cells| == board.Length
    {
      board[..]
    }

    /** The board starts with all nine cells empty. */
    constructor ()
      ensures Valid() && fresh(board)
      ensures Cells() == EmptyBoard()
    {
      board := new Cell[Size](_ => Empty);
    }

    /** Hands out the array itself, not a copy: later writes through the
        board are visible to whoever holds it. */
    method GetBoard() returns (b: array<Cell>)
      requires Valid()
      ensures b == board && b.Length == Size
    {
      b := board;
    }

    /** Replaces the array by a new, all-empty one. An array handed out
        earlier by GetBoard keeps its old contents. */
    method ResetBoard()
      modifies this
      ensures Valid() && fresh(board)
      ensures Cells() == EmptyBoard()
      ensures old(board)[..] == old(board[..])
    {
      board := new Cell[Size](_ => Empty);
    }

    /** Writes `value` into cell `index`, whatever the cell held. */
    method SetBoardItem(index: nat, value: Cell)
      requires Valid() && index < Size
      modifies board
      ensures Valid()
      ensures Cells() == old(Cells())[index := value]
      ensures GetBoardItem(index) == value
    {
      board[index] := value;
    }

    /** The mark in cell `index`. */
    function GetBoardItem(index: nat): (c: Cell)
      requires Valid() && index < Size
      reads this, board
      ensures c == Cells()[index]
    {
      board[index]
    }
  }
}
