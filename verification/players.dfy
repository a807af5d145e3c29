/** The two sides of tictactoe.c: X is the minimising human, O the
    maximising program. */
module Players {
  import opened Board

  datatype PlayerColor = PlayerX | PlayerO

  /** Invert_Player_Color: the side to move next; turns alternate. */
  function InvertPlayerColor(p: PlayerColor): (r: PlayerColor)
    ensures r != p
  {
    if p == PlayerX then PlayerO else PlayerX
  }

  /** Inverting twice gives back the same side. */
  lemma InvertIsInvolution(p: PlayerColor)
    ensures InvertPlayerColor(InvertPlayerColor(p)) == p
  {
  }

  /** player_color_to_board_cell_color: the mark a side places. Its `abort()`
      fallback is unreachable because the enumeration has only two values. */
  function PlayerCellColor(p: PlayerColor): (r: Cell)
    ensures !r.Empty?
    ensures r == X <==> p == PlayerX
    ensures r == O <==> p == PlayerO
  {
    match p
    case PlayerX => X
    case PlayerO => O
  }
}
