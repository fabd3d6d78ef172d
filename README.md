# Tic-tac-toe rules engine, modelled in Dafny

This project models the rules engine of a browser tic-tac-toe game. The game is written as three module-pattern singletons in `main.js`:

- **`GameBoard`** owns a nine-cell array. Each cell holds `""`, `"X"` or `"O"`. Its operations are get board, get cell, set cell and reset.
- **`playerFactory`** makes the two players, `X` and `O`. A player is identified only by its mark.
- **`gameController`** is a small state machine over a round counter and a game-over flag. A click on a cell is ignored when the cell is taken or the game is over. Otherwise the current player's mark is written. Then the win check runs on the winning combinations through the played cell, then the tie check. Only if neither ends the game does the round advance. The reset button gives the board a new, empty array and clears the game-over flag.

Layout, one module per file:

- `players.dfy` (`Players`): cells, players, and the current mark as a function of the round.
- `board.dfy` (`Board`): the `GameBoard` class over an `array<Cell>`.
- `rules.dfy` (`Rules`): the eight winning combinations, the win check (filter, some, every), the tie check, and why looking only at the played cell's combinations suffices.
- `moves.dfy` (`Moves`): the controller's state as a value, the value-level description `Play` of one move, the state after a reset, and the two game invariants.
- `game_props.dfy` (`GameProperties`): properties of moves, resets and sequences of clicks, and some concrete end-games.
- `game.dfy` (`Game`): the `GameController` class, whose methods are proved to follow `Play` and to keep both invariants, the start-up and the reset button.

The messages and headings the controller writes to the page are replaced by a returned `Outcome`: `Ignored`, `Won(mark)`, `Tie` or `Continue`.

Two invariants are part of the controller's `Valid()`, so every click and every reset is proved to keep them:

- `Consistent`: the game is over exactly when some line is complete or no cell is empty.
- `MovesSince`: the number of filled cells equals the rounds played since the reset, plus one if the last move ended the game.

Two details of the code shape the model:

- **The reset button leaves the round counter alone** (main.js:135-137); only the game-over flag is cleared. Because the parity carries over, the first mover of the next game is whoever the old counter selects. After a win, for example, the winner moves first. Because of this, "exactly `round` cells are filled" does not hold after a reset. The model proves it relative to the round at which the reset happened (`MovesSince`), which the controller keeps in a ghost field `start`.
- **The tie check is written `!arr.length > 0`** (main.js:132). This parses as `(!arr.length) > 0`: a boolean compared with a number. It still holds exactly when no cell is empty. `Rules.CheckTie` writes out the boolean-to-number coercion.

## Model

| member | source | states |
|---|---|---|
| `Players.Player.GetSign` | main.js:1-9 | a player's sign is the mark it was created with |
| `Players.CurrentMark` | main.js:88-89 | the mover's mark is never empty; it is the first player's (`X`) exactly on even rounds and the second player's (`O`) exactly on odd rounds |
| `Players.MarksAlternate` | main.js:88-89 | consecutive rounds belong to opposite marks, and rounds two apart to the same mark |
| `Board.EmptyBoard` | main.js:12 | a fresh board has nine cells, all empty |
| `Board.GameBoard.constructor` | main.js:11-12 | the board starts as a new array of nine empty cells |
| `Board.GameBoard.GetBoard` | main.js:14-16 | returns the board's own array (an alias, not a copy) |
| `Board.GameBoard.ResetBoard` | main.js:18-20 | replaces the array by a fresh all-empty one; an array handed out earlier keeps its contents |
| `Board.GameBoard.SetBoardItem` | main.js:22-24 | the chosen cell now holds the value and the other eight cells are unchanged, whether or not the cell was empty |
| `Board.GameBoard.GetBoardItem` | main.js:26-28 | reads the mark in the given cell |
| `Rules.CombosThrough` | main.js:121-122 | keeps exactly the combinations that include the played index |
| `Rules.SomeOwned` | main.js:123-127 | true iff some combination in the list has every cell equal to the mark |
| `Rules.CheckWinner` | main.js:109-129 | true iff one of the 8 combinations through the played index has all three cells equal to the mark; a success implies the mark has a line |
| `Rules.WinCombosAreTheLines` | main.js:110-119 | the eight combinations are exactly the three rows, three columns and two diagonals of the 3x3 grid: a mark owns one iff it owns such a line |
| `Rules.NewLineRunsThroughMove` | main.js:121-125 | if the mover had no line before, checking only the combinations through the played cell finds a line iff the whole board has one |
| `Rules.OtherMarkGainsNoLine` | main.js:93 | writing one mark never gives the other mark a new line |
| `Rules.LoneComboWins` | main.js:109-128 | a board holding a mark on exactly one combination is won by that mark from each of its cells, and not by the other mark |
| `Rules.EmptyCells` | main.js:132 | the filter keeps only empty cells, as many as the board has |
| `Rules.CheckTie` | main.js:131-133 | true iff no cell of the board is empty |
| `Game.GameController.constructor` | main.js:78-82 | over the page's new, empty board: round 0, game not over, both invariants holding from round 0 |
| `Game.GameController.GetCurrentPlayer` | main.js:88-89 | the mover's mark is `X` exactly on even rounds and never empty |
| `Game.GameController.PlayRound` | main.js:91-107 | board, round and game-over flag afterwards, and the outcome, are those of `Moves.Play` on the state before; the board object is unchanged and both invariants still hold |
| `Game.GameController.ResetRound` | main.js:135-137 | clears the game-over flag and leaves the round counter unchanged; the next game is counted from that round |
| `Game.NewGame` | main.js:78-82 | a fresh controller at round 0 with the game in progress, over a fresh board whose cells are all empty (the literal of line 12) |
| `Game.ResetClicked` | main.js:65-69 | after the reset button the board is a new array with all cells empty, the game is not over, the round is unchanged, and so is the player to move; both invariants hold, counted from the current round |
| `Game.SecondGameAfterReset` | main.js:58-69 | on one page, X opens at cell 0, the reset button is pressed, and the next game's first click on cell 0 is accepted and places O |
| `GameProperties.IgnoredExactlyWhenRefused` | main.js:92 | a click is ignored iff the cell is taken or the game is over; an ignored click changes neither board, round nor flag |
| `GameProperties.AcceptedMoveWritesOneCell` | main.js:92-93 | an accepted move writes the current mark into exactly the chosen cell; the other eight cells are unchanged |
| `GameProperties.AcceptedMoveOutcome` | main.js:95-106 | Won(mover) iff the win check succeeds; Tie iff it fails and no cell is empty; a game-ending move keeps the round; Continue advances the round by one and hands the turn to the opposite mark |
| `GameProperties.WinBeforeTie` | main.js:95-102 | in a game in progress, a move that completes a line is a win even if it fills the last cell; the game is then over and the round is unchanged |
| `GameProperties.PlayKeepsConsistent` | main.js:91-107 | every click keeps "over iff a line is complete or the board is full" |
| `GameProperties.WonOnlyByMover` | main.js:95-98 | a reported win is the mover's, the mover has a line, and the other mark has none |
| `GameProperties.TieHasNoLine` | main.js:99-102 | a reported tie is a full board where neither mark has a line |
| `GameProperties.PlayCountsMoves` | main.js:91-107 | every click keeps filled cells equal to rounds played since the reset, plus one once the game is over |
| `GameProperties.GameLastsAtMostNineMoves` | main.js:104 | a game in progress has been running for fewer than nine rounds since its reset |
| `GameProperties.RestartBeginsAGame` | main.js:65-69 | the state after a reset satisfies both invariants with the game in progress, and the mover is the one the carried-over round selects |
| `GameProperties.OpeningMoveContinues` | main.js:91-107 | the first move on an empty board writes the mover's mark, ends nothing, and advances the round |
| `GameProperties.FirstMoveAfterReset` | main.js:65-69 | the first click after a reset is accepted and places the mark the carried-over round selects |
| `GameProperties.PlayMovesKeepsInvariants` | main.js:58-63 | from any state satisfying the invariants, every sequence of clicks keeps them |
| `GameProperties.OverIsFinal` | main.js:92 | once the game is over, every further click is ignored and nothing changes |
| `GameProperties.LastMoveTies` | main.js:99-102 | X filling the last cell without a line gives Tie and ends the game at round 8 |
| `GameProperties.LastMoveWinsOnFullBoard` | main.js:95-98 | X filling the last cell and completing the diagonal gives Won(X), not Tie |
| `GameProperties.WinThenIgnored` | main.js:92-98 | X completing the main diagonal wins with cells still empty; the next click on an empty cell is ignored and changes nothing |

## Left out

- The `displayController` (main.js:38-76) is left out: DOM queries, click listeners and `textContent` updates. A click becomes a call of `PlayRound` (or an element of `PlayMoves`). The reset listener becomes `ResetClicked`.
- The message and heading texts (main.js:84-86, 97-98, 101-102, 105, 139) are left out. They are page output and become the returned `Outcome`.
- The write `this.sign = sign` in `playerFactory` (main.js:2) is left out. It is a stray global assignment with no effect on the game.
- Cell indices arrive as strings from `dataset.index` and go through `parseInt` (main.js:60, 122). The model takes a `nat` below 9 as a precondition instead. Out-of-range indices come only from a broken page. In the code, `getBoardItem` would return `undefined` for them and `setBoardItem` would grow the array. The model does not capture either.
- No computer opponent or minimax search exists in the code, so none is modelled.
- `Moves.Play` and `GameProperties.PlayMoves` are specification functions. Their own postconditions only fix sizes. What they mean is stated by the lemmas in `GameProperties` and by `PlayRound`'s postcondition.

