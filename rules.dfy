/** The rules of the game: the eight winning lines, the win check the
    controller runs after a move, and the tie check. All of them are
    side-effect-free queries over the board's contents. */
module Rules {
  import opened Players
  import opened Board

  /** A winning combination: the indices of three cells in a line. */
  type Combo = seq<nat>

  /** The eight fixed winning combinations, in the controller's order:
      three rows, three columns, then the two diagonals. */
  const WinCombos: seq<Combo> := [
    [0, 1, 2],
    [3, 4, 5],
    [6, 7, 8],
    [0, 3, 6],
    [1, 4, 7],
    [2, 5, 8],
    [0, 4, 8],
    [6, 4, 2]
  ]

  /** Every cell of `combo` holds the mark `m` (the `every` of the win check). */
  predicate Owned(cells: seq<Cell>, combo: Combo, m: Cell)
  {
    forall j | 0 <= j < |combo| :: combo[j] < |cells| && cells[combo[j]] == m
  }

  /** Some winning combination is owned entirely by `m`. */
  predicate HasLine(cells: seq<Cell>, m: Cell)
  {
    exists k | 0 <= k < |WinCombos| :: Owned(cells, WinCombos[k], m)
  }

  /** The combinations of `combos` that include `index` (the `filter`). */
  function CombosThrough(combos: seq<Combo>, index: nat): (r: seq<Combo>)
    ensures forall c | c in r :: c in combos && index in c
    ensures forall c | c in combos && index in c :: c in r
    ensures |r| <= |combos|
  {
    if combos == [] then []
    else if index in combos[0] then [combos[0]] + CombosThrough(combos[1..], index)
    else CombosThrough(combos[1..], index)
  }

  /** Some combination of `combos` is owned by `m` (the `some`). */
  function SomeOwned(cells: seq<Cell>, combos: seq<Combo>, m: Cell): (r: bool)
    ensures r <==> exists c | c in combos :: Owned(cells, c, m)
  {
    if combos == [] then false
    else Owned(cells, combos[0], m) || SomeOwned(cells, combos[1..], m)
  }

  /** The win check after a move at `index` by `m`: only the combinations
      through the played cell are examined. */
  function CheckWinner(cells: seq<Cell>, index: nat, m: Cell): (r: bool)
    ensures r <==> exists k | 0 <= k < |WinCombos| ::
                     index in WinCombos[k] && Owned(cells, WinCombos[k], m)
    ensures r ==> HasLine(cells, m)
  {
    var through := CombosThrough(WinCombos, index);
    var r := SomeOwned(cells, through, m);
    assert r ==> exists k | 0 <= k < |WinCombos| ::
                   index in WinCombos[k] && Owned(cells, WinCombos[k], m);
    r
  }

  /** The empty cells of the board (the `filter` of the tie check). */
  function EmptyCells(cells: seq<Cell>): (r: seq<Cell>)
    ensures forall c | c in r :: c == Empty
    ensures |r| == multiset(cells)[Empty]
  {
    if cells == [] then []
    else
      assert cells == [cells[0]] + cells[1..];
      (if cells[0] == Empty then [cells[0]] else []) + EmptyCells(cells[1..])
  }

  /** A boolean used where a number is expected: true is 1, false is 0. */
  function BoolToNumber(b: bool): (n: int)
    ensures 0 <= n <= 1 && (n == 1 <==> b)
  {
    if b then 1 else 0
  }

  /** The tie check: the negation binds to the number of empty cells, and
      the resulting boolean is compared with 0. It holds exactly when no
      cell is empty. */
  function CheckTie(cells: seq<Cell>): (r: bool)
    ensures r <==> Empty !in cells
  {
    var emptyCount := |EmptyCells(cells)|;
    BoolToNumber(emptyCount == 0) > 0
  }

  // ---------------------------------------------------------------------
  // The winning combinations are the rows, columns and diagonals.

  /** The cell in row `row` and column `col`, both counted from 0. */
  function At(cells: seq<Cell>, row: nat, col: nat): Cell
    requires |cells| == Size && row < 3 && col < 3
  {
    cells[3 * row + col]
  }

  predicate FullRow(cells: seq<Cell>, m: Cell, row: nat)
    requires |cells| == Size && row < 3
  {
    forall col | 0 <= col < 3 :: At(cells, row, col) == m
  }

  predicate FullColumn(cells: seq<Cell>, m: Cell, col: nat)
    requires |cells| == Size && col < 3
  {
    forall row | 0 <= row < 3 :: At(cells, row, col) == m
  }

  predicate FullDiagonal(cells: seq<Cell>, m: Cell)
    requires |cells| == Size
  {
    forall row, col | 0 <= row < 3 && 0 <= col < 3 && row == col :: At(cells, row, col) == m
  }

  predicate FullAntiDiagonal(cells: seq<Cell>, m: Cell)
    requires |cells| == Size
  {
    forall row, col | 0 <= row < 3 && 0 <= col < 3 && row + col == 2 :: At(cells, row, col) == m
  }

  /** Three in a row, stated on coordinates: a full row, a full column,
      the main diagonal or the anti-diagonal. */
  predicate ThreeInARow(cells: seq<Cell>, m: Cell)
    requires |cells| == Size
  {
    (exists row | 0 <= row < 3 :: FullRow(cells, m, row)) ||
    (exists col | 0 <= col < 3 :: FullColumn(cells, m, col)) ||
    FullDiagonal(cells, m) || FullAntiDiagonal(cells, m)
  }

  lemma {:induction false} WinCombosAreTheLines(cells: seq<Cell>, m: Cell)
    requires |cells| == Size
    ensures HasLine(cells, m) <==> ThreeInARow(cells, m)
  {
    if HasLine(cells, m) {
      var k :| 0 <= k < |WinCombos| && Owned(cells, WinCombos[k], m);
      ComboIsALine(cells, m, k);
    }
    if ThreeInARow(cells, m) {
      LineIsACombo(cells, m);
    }
  }

  lemma ComboIsALine(cells: seq<Cell>, m: Cell, k: nat)
    requires |cells| == Size && k < |WinCombos| && Owned(cells, WinCombos[k], m)
    ensures ThreeInARow(cells, m)
  {
    var c := WinCombos[k];
    assert cells[c[0]] == m && cells[c[1]] == m && cells[c[2]] == m;
    if k < 3 {
      assert FullRow(cells, m, k);
    } else if k < 6 {
      assert FullColumn(cells, m, k - 3);
    } else if k == 6 {
      assert FullDiagonal(cells, m);
    } else {
      assert FullAntiDiagonal(cells, m);
    }
  }

  lemma LineIsACombo(cells: seq<Cell>, m: Cell)
    requires |cells| == Size && ThreeInARow(cells, m)
    ensures HasLine(cells, m)
  {
    if row :| 0 <= row < 3 && FullRow(cells, m, row) {
      assert At(cells, row, 0) == m && At(cells, row, 1) == m && At(cells, row, 2) == m;
      assert Owned(cells, WinCombos[row], m);
    } else if col :| 0 <= col < 3 && FullColumn(cells, m, col) {
      assert At(cells, 0, col) == m && At(cells, 1, col) == m && At(cells, 2, col) == m;
      assert Owned(cells, WinCombos[3 + col], m);
    } else if FullDiagonal(cells, m) {
      assert At(cells, 0, 0) == m && At(cells, 1, 1) == m && At(cells, 2, 2) == m;
      assert Owned(cells, WinCombos[6], m);
    } else {
      assert At(cells, 0, 2) == m && At(cells, 1, 1) == m && At(cells, 2, 0) == m;
      assert Owned(cells, WinCombos[7], m);
    }
  }

  // ---------------------------------------------------------------------
  // Why checking only the combinations through the played cell suffices.

  /** A write outside a combination does not change who owns it. */
  lemma OwnedAwayFromWrite(cells: seq<Cell>, index: nat, v: Cell, combo: Combo, m: Cell)
    requires index < |cells| && index !in combo
    ensures Owned(cells[index := v], combo, m) <==> Owned(cells, combo, m)
  {
  }

  /** On a board where `m` had no line, placing `m` at `index` gives `m` a
      line exactly when the win check at `index` succeeds. */
  lemma {:induction false} NewLineRunsThroughMove(cells: seq<Cell>, index: nat, m: Cell)
    requires |cells| == Size && index < Size
    requires !HasLine(cells, m)
    ensures HasLine(cells[index := m], m) <==> CheckWinner(cells[index := m], index, m)
  {
    var after := cells[index := m];
    if HasLine(after, m) {
      var k :| 0 <= k < |WinCombos| && Owned(after, WinCombos[k], m);
      if index !in WinCombos[k] {
        OwnedAwayFromWrite(cells, index, m, WinCombos[k], m);
        assert false;
      }
    }
  }

  /** Placing `m` never gives another mark a line it did not have. */
  lemma {:induction false} OtherMarkGainsNoLine(cells: seq<Cell>, index: nat, m: Cell, o: Cell)
    requires |cells| == Size && index < Size && o != m
    ensures HasLine(cells[index := m], o) ==> HasLine(cells, o)
  {
    var after := cells[index := m];
    if HasLine(after, o) {
      var k :| 0 <= k < |WinCombos| && Owned(after, WinCombos[k], o);
      var c := WinCombos[k];
      assert index !in c;
      OwnedAwayFromWrite(cells, index, m, c, o);
      assert Owned(cells, c, o);
    }
  }

  /** A board holding `m` on exactly the cells of combination `k` is won
      by `m`, as seen from every cell of the combination, and not by the
      other mark. */
  lemma {:induction false} LoneComboWins(k: nat, m: Cell)
    requires k < |WinCombos| && m != Empty
    ensures var cells := seq(Size, i => if i in WinCombos[k] then m else Empty);
            (forall i | i in WinCombos[k] :: CheckWinner(cells, i, m)) &&
            !HasLine(cells, Opponent(m))
  {
    var cells := seq(Size, i => if i in WinCombos[k] then m else Empty);
    assert Owned(cells, WinCombos[k], m);
    forall i | i in WinCombos[k]
      ensures CheckWinner(cells, i, m)
    {
      assert i in WinCombos[k] && Owned(cells, WinCombos[k], m);
    }
    forall k' | 0 <= k' < |WinCombos|
      ensures !Owned(cells, WinCombos[k'], Opponent(m))
    {
      assert cells[WinCombos[k'][0]] != Opponent(m);
    }
  }
}
