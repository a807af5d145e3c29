/** Selecting a cell by the digit a human types: is_valid_position_character
    and convert_board_selector_to_move. */
module Selector {
  import opened Wrappers
  import opened Board

  /** is_valid_position_character: '1'..'9', exactly the labels of a fresh
      board. */
  predicate IsValidPositionCharacter(ch: char)
    ensures IsValidPositionCharacter(ch) <==>
              exists x: nat, y: nat :: x < Width && y < Height && InitialLabel(x, y) == ch
  {
    var d := ch as int - '1' as int;
    assert 0 <= d < Width * Height ==> InitialLabel(d % Width, d / Width) == ch;

    '1' <= ch && ch <= '9'
  }

  /** convert_board_selector_to_move: each digit names the cell that carries
      it on a fresh board; any other character aborts (`None`). */
  function ConvertBoardSelectorToMove(color: char): (r: Option<Move>)
    ensures r.Some? <==> IsValidPositionCharacter(color)
    ensures r.Some? ==> InRange(r.value) && InitialLabel(r.value.x, r.value.y) == color
  {
    match color
    case '1' => Some(Move(0, 0))
    case '2' => Some(Move(1, 0))
    case '3' => Some(Move(2, 0))
    case '4' => Some(Move(0, 1))
    case '5' => Some(Move(1, 1))
    case '6' => Some(Move(2, 1))
    case '7' => Some(Move(0, 2))
    case '8' => Some(Move(1, 2))
    case '9' => Some(Move(2, 2))
    case _ => None
  }

  /** The initial labelling and the selector conversion are inverse: typing
      the label shown at (x, y) of a fresh board selects (x, y). */
  lemma SelectorInvertsInitialLabels(storage: BoardData, x: nat, y: nat)
    requires x < Width && y < Height
    ensures ConvertBoardSelectorToMove(Color(GetCellColor(SetInitialCellValues(storage), x, y)))
            == Some(Move(x, y))
  {
  }
}
