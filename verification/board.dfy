/** The 3x3 board of tictactoe.c: cell colours, the flat `board_data` array,
    coordinate access, legality of a movement, placement, copying and the
    initial labelling of the empty cells. */
module Board {

  const Width: nat := 3
  const Height: nat := 3

  /** The label an empty cell shows: the digit a human types to select it. */
  type Label = c: char | '1' <= c <= '9' witness '1'

  /** BoardCellColor: an empty cell carries its label '1'..'9'; an occupied
      cell holds the mark 'X' or 'O'. */
  datatype Cell = Empty(selector: Label) | X | O

  /** The character the program stores for a cell. */
  function Color(c: Cell): char
  {
    match c
    case Empty(l) => l
    case X => 'X'
    case O => 'O'
  }

  /** `board_data`: the Width * Height cells, row by row. */
  type BoardData = b: seq<Cell> | |b| == Width * Height witness seq(9, _ => X)

  /** movement_t: a column `x` and a row `y`, both `size_t`. */
  datatype Move = Move(x: nat, y: nat)

  predicate InRange(m: Move)
  {
    m.x < Width && m.y < Height
  }

  /** board_t_get_cell_color reads index `y * WIDTH + x`. */
  function GetCellColor(b: BoardData, x: nat, y: nat): Cell
    requires x < Width && y < Height
  {
    b[y * Width + x]
  }

  /** board_t_get_cell_color_via_movement: the getter at the movement's
      coordinates. */
  function GetCellColorViaMovement(b: BoardData, m: Move): Cell
    requires InRange(m)
  {
    GetCellColor(b, m.x, m.y)
  }

  /** Both getters read the slot that board_t_set_cell_color writes
      (`HEIGHT * y + x`): the two index formulas agree because the grid is
      square. */
  lemma GetterReadsSetterSlot(b: BoardData, x: nat, y: nat)
    requires x < Width && y < Height
    ensures GetCellColor(b, x, y) == b[Height * y + x]
    ensures GetCellColorViaMovement(b, Move(x, y)) == b[Height * y + x]
  {
  }

  /** board_t_set_cell_color writes index `HEIGHT * y + x`, a different
      expression from the one the getter uses; the contract states that the
      two agree, so the write lands where a later read looks. */
  function SetCellColor(b: BoardData, x: nat, y: nat, c: Cell): (r: BoardData)
    requires x < Width && y < Height
    ensures GetCellColor(r, x, y) == c
    ensures forall x': nat, y': nat :: x' < Width && y' < Height && (x', y') != (x, y) ==>
              GetCellColor(r, x', y') == GetCellColor(b, x', y')
  {
    var r := b[Height * y + x := c];
    forall x': nat, y': nat | x' < Width && y' < Height && (x', y') != (x, y)
      ensures GetCellColor(r, x', y') == GetCellColor(b, x', y')
    {
      assert y' * Width + x' != Height * y + x by {
        if y' == y { assert x' != x; }
        else if y' < y { assert y' * Width + x' < (y' + 1) * Width <= Height * y; }
        else { assert Height * y + x < (y + 1) * Width <= y' * Width; }
      }
    }
    r
  }

  /** board_t_set_cell_color_via_movement writes index `y * WIDTH + x`. */
  function SetCellColorViaMovement(b: BoardData, m: Move, c: Cell): (r: BoardData)
    requires InRange(m)
    ensures GetCellColorViaMovement(r, m) == c
    ensures forall m' :: InRange(m') && m' != m ==>
              GetCellColorViaMovement(r, m') == GetCellColorViaMovement(b, m')
  {
    b[m.y * Width + m.x := c]
  }

  /** board_t_can_make_movement: the movement is inside the grid and its cell
      holds neither mark. */
  function CanMakeMovement(b: BoardData, m: Move): (r: bool)
    ensures r <==> InRange(m) && b[m.y * Width + m.x].Empty?
  {
    if m.x >= Width || m.y >= Height then false
    else
      var color := GetCellColor(b, m.x, m.y);
      color != X && color != O
  }

  /** board_t_make_movement: writes the colour only when the movement is legal. */
  function MakeMovement(b: BoardData, m: Move, c: Cell): (r: BoardData)
    ensures CanMakeMovement(b, m) ==> GetCellColorViaMovement(r, m) == c
    ensures CanMakeMovement(b, m) ==> forall m' :: InRange(m') && m' != m ==>
              GetCellColorViaMovement(r, m') == GetCellColorViaMovement(b, m')
    ensures !CanMakeMovement(b, m) ==> r == b
  {
    if CanMakeMovement(b, m) then SetCellColor(b, m.x, m.y, c) else b
  }

  /** board_t_cell_is_empty: a cell is empty unless it holds 'X' or 'O'; for
      in-range coordinates this is exactly the legality of moving there. */
  function CellIsEmpty(b: BoardData, x: nat, y: nat): (r: bool)
    requires x < Width && y < Height
    ensures r <==> CanMakeMovement(b, Move(x, y))
  {
    match GetCellColor(b, x, y)
    case X => false
    case O => false
    case _ => true
  }

  /** board_t_copy: `storage` is the indeterminate content of the freshly
      allocated array; every cell is overwritten, row by row. */
  method Copy(b: BoardData, storage: BoardData) returns (copy: BoardData)
    ensures copy == b
  {
    copy := storage;
    var y := 0;
    while y < Height
      invariant y <= Height
      invariant forall i :: 0 <= i < y * Width ==> copy[i] == b[i]
    {
      var x := 0;
      while x < Width
        invariant x <= Width
        invariant forall i :: 0 <= i < y * Width + x ==> copy[i] == b[i]
      {
        copy := SetCellColor(copy, x, y, GetCellColor(b, x, y));
        x := x + 1;
      }
      y := y + 1;
    }
  }

  /** The label the game starts with at (x, y): '1'..'9' in row-major order. */
  function InitialLabel(x: nat, y: nat): Label
    requires x < Width && y < Height
  {
    ('1' as int + y * Width + x) as char
  }

  /** Every cell before row-major step n shows its initial label. */
  predicate LabelledBefore(b: BoardData, n: nat)
  {
    forall x: nat, y: nat :: x < Width && y < Height && y * Width + x < n ==>
      GetCellColor(b, x, y) == Empty(InitialLabel(x, y))
  }

  /** Writing the label of step n extends the labelled prefix by one cell. */
  lemma LabelNextCell(b: BoardData, x: nat, y: nat, n: nat)
    requires x < Width && y < Height && n == y * Width + x
    requires LabelledBefore(b, n)
    ensures LabelledBefore(SetCellColor(b, x, y, Empty(InitialLabel(x, y))), n + 1)
  {
  }

  /** board_t_set_initial_cell_values: `storage` is the indeterminate content
      of the freshly allocated array; the result does not depend on it. */
  function SetInitialCellValues(storage: BoardData): (r: BoardData)
    ensures forall x: nat, y: nat :: x < Width && y < Height ==>
              GetCellColor(r, x, y) == Empty(InitialLabel(x, y))
  {
    var b1 := SetCellColor(storage, 0, 0, Empty('1'));
    LabelNextCell(storage, 0, 0, 0);
    var b2 := SetCellColor(b1, 1, 0, Empty('2'));
    LabelNextCell(b1, 1, 0, 1);
    var b3 := SetCellColor(b2, 2, 0, Empty('3'));
    LabelNextCell(b2, 2, 0, 2);
    var b4 := SetCellColor(b3, 0, 1, Empty('4'));
    LabelNextCell(b3, 0, 1, 3);
    var b5 := SetCellColor(b4, 1, 1, Empty('5'));
    LabelNextCell(b4, 1, 1, 4);
    var b6 := SetCellColor(b5, 2, 1, Empty('6'));
    LabelNextCell(b5, 2, 1, 5);
    var b7 := SetCellColor(b6, 0, 2, Empty('7'));
    LabelNextCell(b6, 0, 2, 6);
    var b8 := SetCellColor(b7, 1, 2, Empty('8'));
    LabelNextCell(b7, 1, 2, 7);
    var r := SetCellColor(b8, 2, 2, Empty('9'));
    LabelNextCell(b8, 2, 2, 8);
    r
  }

  /** Some cell holds neither mark. */
  predicate HasEmptyCell(b: BoardData)
  {
    exists i :: 0 <= i < |b| && b[i].Empty?
  }

  /** board_t_has_available_spots: scans row by row and stops at the first
      cell holding neither mark. */
  method HasAvailableSpots(b: BoardData) returns (r: bool)
    ensures r <==> HasEmptyCell(b)
  {
    var y := 0;
    while y < Height
      invariant y <= Height
      invariant forall i :: 0 <= i < y * Width ==> !b[i].Empty?
    {
      var x := 0;
      while x < Width
        invariant x <= Width
        invariant forall i :: 0 <= i < y * Width + x ==> !b[i].Empty?
      {
        var color := GetCellColor(b, x, y);
        if color != X && color != O {
          return true;
        }
        x := x + 1;
      }
      y := y + 1;
    }
    return false;
  }

  /** The number of cells holding neither mark: the search's measure. */
  function EmptyCount(s: seq<Cell>): (n: nat)
    ensures n <= |s|
  {
    if s == [] then 0 else (if s[0].Empty? then 1 else 0) + EmptyCount(s[1..])
  }

  lemma {:induction false} EmptyCountUpdate(s: seq<Cell>, i: nat, c: Cell)
    requires i < |s| && s[i].Empty? && !c.Empty?
    ensures EmptyCount(s[i := c]) == EmptyCount(s) - 1
    decreases i
  {
    if i == 0 {
      assert s[i := c][1..] == s[1..];
    } else {
      assert s[i := c][1..] == s[1..][i - 1 := c];
      EmptyCountUpdate(s[1..], i - 1, c);
    }
  }

  /** Placing a mark on a legal cell leaves one empty cell fewer. */
  lemma MarkingFillsOneCell(b: BoardData, m: Move, c: Cell)
    requires CanMakeMovement(b, m) && !c.Empty?
    ensures EmptyCount(SetCellColorViaMovement(b, m, c)) == EmptyCount(b) - 1
  {
    EmptyCountUpdate(b, m.y * Width + m.x, c);
  }
}
