/** Deciding the game from the board alone: board_t_get_winner_status and
    cell_color_to_winning_status. */
module Winner {
  import opened Wrappers
  import opened Board

  /** WinningStatus: X won, O won, a tie, or not decided yet. */
  datatype WinningStatus = WinX | WinO | WinTie | WinNA

  /** cell_color_to_winning_status: a mark names its winner; any other colour
      aborts (`None`). */
  function CellColorToWinningStatus(c: Cell): (r: Option<WinningStatus>)
    ensures r.None? <==> c.Empty?
    ensures r == Some(WinX) <==> c == X
    ensures r == Some(WinO) <==> c == O
  {
    match c
    case X => Some(WinX)
    case O => Some(WinO)
    case Empty(_) => None
  }

  /** Three cells all holding mark `c`. */
  predicate Holds(c1: Cell, c2: Cell, c3: Cell, c: Cell)
  {
    c1 == c && c2 == c && c3 == c
  }

  predicate RowHeld(b: BoardData, y: nat, c: Cell)
    requires y < Height
  {
    Holds(GetCellColor(b, 0, y), GetCellColor(b, 1, y), GetCellColor(b, 2, y), c)
  }

  predicate ColumnHeld(b: BoardData, x: nat, c: Cell)
    requires x < Width
  {
    Holds(GetCellColor(b, x, 0), GetCellColor(b, x, 1), GetCellColor(b, x, 2), c)
  }

  /** Mark `c` fills one of the 8 lines: a row, a column or a diagonal. */
  predicate HasLine(b: BoardData, c: Cell)
  {
    || (exists y: nat :: y < Height && RowHeld(b, y, c))
    || (exists x: nat :: x < Width && ColumnHeld(b, x, c))
    || Holds(GetCellColor(b, 0, 0), GetCellColor(b, 1, 1), GetCellColor(b, 2, 2), c)
    || Holds(GetCellColor(b, 2, 0), GetCellColor(b, 1, 1), GetCellColor(b, 0, 2), c)
  }

  /** The verdict of one line: the winner when all three cells hold the same
      mark, `None` otherwise. The status conversion is only applied to a
      mark, so its abort cannot be reached. */
  function LineWinner(c1: Cell, c2: Cell, c3: Cell): (r: Option<WinningStatus>)
    ensures r == Some(WinX) <==> Holds(c1, c2, c3, X)
    ensures r == Some(WinO) <==> Holds(c1, c2, c3, O)
    ensures r.None? <==> !Holds(c1, c2, c3, X) && !Holds(c1, c2, c3, O)
  {
    if c1 == c2 && c2 == c3 && (c1 == X || c1 == O) then
      Some(CellColorToWinningStatus(c1).value)
    else
      None
  }

  /** The loop over i = 0, 1, 2 that checks row i and then column i. */
  function RowsAndColumns(b: BoardData, i: nat): (r: Option<WinningStatus>)
    requires i <= Height
    decreases Height - i
    ensures r in {None, Some(WinX), Some(WinO)}
  {
    if i == Height then None
    else
      var row := LineWinner(GetCellColor(b, 0, i), GetCellColor(b, 1, i), GetCellColor(b, 2, i));
      if row.Some? then row
      else
        var column := LineWinner(GetCellColor(b, i, 0), GetCellColor(b, i, 1), GetCellColor(b, i, 2));
        if column.Some? then column
        else RowsAndColumns(b, i + 1)
  }

  lemma {:induction false} RowsAndColumnsFindsLines(b: BoardData, i: nat)
    requires i <= Height
    decreases Height - i
    ensures RowsAndColumns(b, i) == Some(WinX) ==>
              (exists y: nat :: i <= y < Height && RowHeld(b, y, X)) ||
              (exists x: nat :: i <= x < Width && ColumnHeld(b, x, X))
    ensures RowsAndColumns(b, i) == Some(WinO) ==>
              (exists y: nat :: i <= y < Height && RowHeld(b, y, O)) ||
              (exists x: nat :: i <= x < Width && ColumnHeld(b, x, O))
    ensures RowsAndColumns(b, i).None? ==>
              (forall y: nat :: i <= y < Height ==> !RowHeld(b, y, X) && !RowHeld(b, y, O)) &&
              (forall x: nat :: i <= x < Width ==> !ColumnHeld(b, x, X) && !ColumnHeld(b, x, O))
    ensures RowsAndColumns(b, i) in {None, Some(WinX), Some(WinO)}
  {
    if i < Height {
      RowsAndColumnsFindsLines(b, i + 1);
      var row := LineWinner(GetCellColor(b, 0, i), GetCellColor(b, 1, i), GetCellColor(b, 2, i));
      if row == Some(WinX) {
        assert RowHeld(b, i, X);
      } else if row == Some(WinO) {
        assert RowHeld(b, i, O);
      } else {
        var column := LineWinner(GetCellColor(b, i, 0), GetCellColor(b, i, 1), GetCellColor(b, i, 2));
        if column == Some(WinX) {
          assert ColumnHeld(b, i, X);
        } else if column == Some(WinO) {
          assert ColumnHeld(b, i, O);
        }
      }
    }
  }

  /** board_t_get_winner_status: rows and columns, then both diagonals, then
      a tie exactly when no cell is left free. */
  function GetWinnerStatus(b: BoardData): (r: WinningStatus)
    ensures r == WinX ==> HasLine(b, X)
    ensures r == WinO ==> HasLine(b, O)
    ensures HasLine(b, X) || HasLine(b, O) ==> r == WinX || r == WinO
    ensures r == WinTie <==> !HasLine(b, X) && !HasLine(b, O) && !HasEmptyCell(b)
    ensures r == WinNA <==> !HasLine(b, X) && !HasLine(b, O) && HasEmptyCell(b)
  {
    RowsAndColumnsFindsLines(b, 0);
    var lines := RowsAndColumns(b, 0);
    if lines.Some? then lines.value
    else
      var diagonal := LineWinner(GetCellColor(b, 0, 0), GetCellColor(b, 1, 1), GetCellColor(b, 2, 2));
      if diagonal.Some? then diagonal.value
      else
        var antiDiagonal := LineWinner(GetCellColor(b, 2, 0), GetCellColor(b, 1, 1), GetCellColor(b, 0, 2));
        if antiDiagonal.Some? then antiDiagonal.value
        else if !HasEmptyCell(b) then WinTie
        else WinNA
  }
}
