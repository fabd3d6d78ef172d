/** Marks and players: a cell of the board holds no mark or one of the two
    players' marks, and the player to move is a function of the round
    counter alone. */
module Players {

  /** One cell of the board: the empty string, "X" or "O". */
  datatype Cell = Empty | X | O

  /** A player is identified solely by its mark. */
  datatype Player = Player(sign: Cell) {
    function GetSign(): (s: Cell)
      ensures s == sign
    {
      sign
    }
  }

  /** The two players the game controller creates. */
  const P1: Player := Player(X)
  const P2: Player := Player(O)

  /** The mark of the other player. */
  function Opponent(m: Cell): (o: Cell)
    requires m != Empty
    ensures o != Empty && o != m
  {
    if m == X then O else X
  }

  /** The mark of the player whose turn it is in round `round`:
      the first player on even rounds, the second on odd rounds. */
  function CurrentMark(round: nat): (m: Cell)
    ensures m != Empty
    ensures m == P1.GetSign() <==> round % 2 == 0
    ensures m == P2.GetSign() <==> round % 2 == 1
  {
    if round % 2 == 0 then P1.GetSign() else P2.GetSign()
  }

  /** Consecutive rounds belong to different players, and every second
      round to the same one. */
  lemma MarksAlternate(round: nat)
    ensures CurrentMark(round + 1) == Opponent(CurrentMark(round))
    ensures CurrentMark(round + 2) == CurrentMark(round)
  {
  }
}
