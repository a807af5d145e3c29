/** Concrete boards on which the model's answers are worked out in full.
    The lemmas about WinOrLose take the board as a parameter pinned by
    `requires b == WinOrLose` (or AfterLosingTrial), so that the verifier
    does not unfold the whole search on a literal board. */
module Scenarios {
  import opened Wrappers
  import opened Board
  import opened Players
  import opened Winner
  import opened Search
  import opened Ai

  /** A full board without three in a row:
        X O X
        X O O
        O X X */
  const FullNoLine: BoardData := [X, O, X, X, O, O, O, X, X]

  lemma FullBoardWithoutLineIsTie()
    ensures GetWinnerStatus(FullNoLine) == WinTie
  {
  }

  /** O to move with two free cells; (2, 0) completes O's top row and
      (1, 2) would hand X the anti-diagonal:
        O O 3
        X X O
        X 8 X */
  const WinOrLose: BoardData := [O, O, Empty('3'), X, X, O, X, Empty('8'), X]

  /** The board after O's losing trial at (1, 2):
        O O 3
        X X O
        X O X */
  const AfterLosingTrial: BoardData := [O, O, Empty('3'), X, X, O, X, O, X]

  /** O completing the top row wins at once: 100 - 0. */
  lemma WinningTrialScores(b: BoardData)
    requires b == WinOrLose
    ensures CanMakeMovement(b, Move(2, 0))
    ensures TrialScore(b, Move(2, 0)) == 100
  {
    var win := SetCellColorViaMovement(b, Move(2, 0), O);
    assert GetWinnerStatus(win) == WinO;
  }

  /** X answering at (2, 0) completes the anti-diagonal one ply deep. */
  lemma ReplyCompletesDiagonal(lose: BoardData)
    requires lose == AfterLosingTrial
    ensures CanMakeMovement(lose, RowMajor(2))
    ensures AlphaBeta(SetCellColorViaMovement(lose, RowMajor(2), X), 1, NegativeInfinity, PositiveInfinity, PlayerO)
            == Eval(-99, SetCellColorViaMovement(lose, RowMajor(2), X))
  {
    var reply := SetCellColorViaMovement(lose, Move(2, 0), X);
    assert GetWinnerStatus(reply) == WinX;
  }

  /** X's move loop on a board whose only free cell is step 2, (2, 0):
      steps 0 and 1 are skipped, a reply scoring -99 sets the best move and
      tightens beta to -99 without a cutoff, and the rest is skipped. */
  lemma OnlyReplyScan(lose: BoardData, f: Frame)
    requires forall i :: 0 <= i < Width * Height && i != 2 ==> !lose[i].Empty?
    requires lose[2].Empty?
    requires AlphaBeta(SetCellColorViaMovement(lose, RowMajor(2), X), 1, NegativeInfinity, PositiveInfinity, PlayerO)
             == Eval(-99, SetCellColorViaMovement(lose, RowMajor(2), X))
    requires f == Frame(lose, NegativeInfinity, PositiveInfinity, StartValue(PlayerX), Sentinel(PlayerX), None)
    ensures Scan(0, PlayerX, 0, f) == Some(Frame(lose, NegativeInfinity, -99, -99, -99, Some(Move(2, 0))))
  {
    assert !CanMakeMovement(lose, RowMajor(0)) && !CanMakeMovement(lose, RowMajor(1));
    assert Scan(0, PlayerX, 0, f) == Scan(0, PlayerX, 1, f) == Scan(0, PlayerX, 2, f);
    ScanLegalStep(0, PlayerX, 2, f);
    var next := Record(PlayerX, RowMajor(2), f, -99);
    assert next == f.(value := -99, bestScore := -99, bestMove := Some(Move(2, 0)));
    var g := Frame(lose, NegativeInfinity, -99, -99, -99, Some(Move(2, 0)));
    assert Tighten(PlayerX, next) == g;
    ScanSkipsOccupied(0, PlayerX, 3, g);
  }

  /** X to move after O's losing trial: the only reply wins, so the node
      scores -100 + 1, minus the corner bonus 5 of (2, 0). */
  lemma LosingTrialSearch(lose: BoardData)
    requires lose == AfterLosingTrial
    ensures AlphaBeta(lose, 0, NegativeInfinity, PositiveInfinity, PlayerX) == Eval(-104, lose)
  {
    assert GetWinnerStatus(lose) == WinNA;
    ReplyCompletesDiagonal(lose);
    var f := Frame(lose, NegativeInfinity, PositiveInfinity, StartValue(PlayerX), Sentinel(PlayerX), None);
    OnlyReplyScan(lose, f);
  }

  /** O completing the top row scores 100 - 0; O at (1, 2) lets X finish the
      anti-diagonal one ply deeper (-100 + 1), minus the corner bonus 5. */
  lemma WinOrLoseScores(b: BoardData)
    requires b == WinOrLose
    ensures CanMakeMovement(b, Move(2, 0)) && CanMakeMovement(b, Move(1, 2))
    ensures TrialScore(b, Move(2, 0)) == 100
    ensures TrialScore(b, Move(1, 2)) == -104
  {
    WinningTrialScores(b);
    var lose := SetCellColorViaMovement(b, Move(1, 2), O);
    assert lose == AfterLosingTrial;
    LosingTrialSearch(lose);
  }

  /** The only free cells of WinOrLose are (2, 0) and (1, 2). */
  lemma WinOrLoseFreeCells(b: BoardData, m: Move)
    requires b == WinOrLose
    requires CanMakeMovement(b, m)
    ensures m == Move(2, 0) || m == Move(1, 2)
  {
    var i := m.y * Width + m.x;
    assert b[i].Empty?;
    assert i == 2 || i == 7;
  }

  /** The move chooser visits (1, 2) first (column-major step 5), then
      (2, 0) (step 6), and takes the win because 100 > -104. */
  method TakesTheWin(b: BoardData) returns (r: Option<Move>)
    requires b == WinOrLose
    ensures r == Some(Move(2, 0))
  {
    WinOrLoseScores(b);
    assert b[2].Empty?;
    r := ComputeNextAiMovement(b);
    WinOrLoseFreeCells(b, r.value);
    assert ColumnMajor(6) == Move(2, 0);
  }
}
