/** compute_next_ai_movement: the program's move as O. */
module Ai {
  import opened Wrappers
  import opened Board
  import opened Players
  import opened Search

  /** The cell the top-level loop visits at step j. Its initialiser
      `{ y, x }` puts the row counter into the `x` field, so the visit order
      is column-major, unlike the row-major order inside the search. */
  function ColumnMajor(j: nat): (m: Move)
    requires j < Width * Height
    ensures InRange(m) && VisitStep(m) == j
  {
    Move(j / Height, j % Height)
  }

  /** The step at which the top-level loop visits a cell. */
  function VisitStep(m: Move): nat
  {
    m.x * Height + m.y
  }

  /** The score the program gives to playing O at a free cell: a search of
      the copy with O placed there, X to move, depth 0 and the full window. */
  function TrialScore(b: BoardData, m: Move): (r: int)
    requires CanMakeMovement(b, m)
    ensures -ScoreBound(b) <= r <= ScoreBound(b)
  {
    var trial := SetCellColorViaMovement(b, m, O);
    MarkingFillsOneCell(b, m, O);
    AlphaBetaBounded(trial, 0, NegativeInfinity, PositiveInfinity, PlayerX);
    AlphaBeta(trial, 0, NegativeInfinity, PositiveInfinity, PlayerX).score
  }

  /** A board with a free cell has a free cell on the top-level visit path. */
  lemma FreeCellIsVisited(b: BoardData)
    requires HasEmptyCell(b)
    ensures exists j :: 0 <= j < Width * Height && CanMakeMovement(b, ColumnMajor(j))
  {
    var i :| 0 <= i < |b| && b[i].Empty?;
    var m := Move(i % Width, i / Width);
    assert CanMakeMovement(b, ColumnMajor(VisitStep(m)));
  }

  /** The body of the top-level loop for a legal cell: copy the board, put
      O on the copy and search it with X to move. The live board is never
      touched, and the search always yields a score. */
  method ScoreOnCopy(b: BoardData, m: Move) returns (tentative: int)
    requires CanMakeMovement(b, m)
    ensures tentative == TrialScore(b, m)
    ensures -ScoreBound(b) <= tentative <= ScoreBound(b)
  {
    var storage: BoardData :| true;
    var copy := Copy(b, storage);
    var trial := SetCellColorViaMovement(copy, m, O);
    MarkingFillsOneCell(copy, m, O);
    AlphaBetaBounded(trial, 0, NegativeInfinity, PositiveInfinity, PlayerX);
    tentative := AlphaBeta(trial, 0, NegativeInfinity, PositiveInfinity, PlayerX).score;
  }

  /** Whether the cell of each visit step may be played. */
  function Legal(b: BoardData): (legal: seq<bool>)
    ensures |legal| == Width * Height
    ensures forall j :: 0 <= j < |legal| ==> legal[j] == CanMakeMovement(b, ColumnMajor(j))
  {
    seq(Width * Height, j requires 0 <= j < Width * Height => CanMakeMovement(b, ColumnMajor(j)))
  }

  /** The score of each visit step's cell, 0 where it may not be played. */
  function Scores(b: BoardData): (score: seq<int>)
    ensures |score| == Width * Height
    ensures forall j :: 0 <= j < |score| && CanMakeMovement(b, ColumnMajor(j)) ==>
              score[j] == TrialScore(b, ColumnMajor(j))
    ensures forall j :: 0 <= j < |score| ==> -10000 < score[j]
  {
    seq(Width * Height, j requires 0 <= j < Width * Height =>
      if CanMakeMovement(b, ColumnMajor(j)) then TrialScore(b, ColumnMajor(j)) else 0)
  }

  /** What a first-maximum scan knows after n steps: with nothing chosen
      yet, no step so far was legal and `best` is still -10000; otherwise
      the chosen step is legal and earlier than n, scores `best`, and beats
      or ties every legal step so far and strictly beats those before it. */
  predicate FirstMaxSoFar(legal: seq<bool>, score: seq<int>, n: nat, chosen: Option<nat>, best: int)
  {
    && n <= |legal| == |score|
    && (chosen.None? ==>
          && best == -10000
          && forall j :: 0 <= j < n ==> !legal[j])
    && (chosen.Some? ==>
          && chosen.value < n
          && legal[chosen.value]
          && best == score[chosen.value]
          && (forall j :: 0 <= j < n && legal[j] ==> score[j] <= best)
          && (forall j :: 0 <= j < chosen.value && legal[j] ==> score[j] < best))
  }

  /** One step of the scan: an illegal step changes nothing, a legal step
      takes over only with a strictly greater score. */
  lemma FirstMaxStep(legal: seq<bool>, score: seq<int>, n: nat, chosen: Option<nat>, best: int)
    requires n < |legal|
    requires FirstMaxSoFar(legal, score, n, chosen, best)
    requires forall j :: 0 <= j < |score| ==> -10000 < score[j]
    ensures !legal[n] ==> FirstMaxSoFar(legal, score, n + 1, chosen, best)
    ensures legal[n] && best < score[n] ==> FirstMaxSoFar(legal, score, n + 1, Some(n), score[n])
    ensures legal[n] && !(best < score[n]) ==> FirstMaxSoFar(legal, score, n + 1, chosen, best)
  {
  }

  /** The visit step of the chosen move, if any. */
  function StepOf(r: Option<Move>): Option<nat>
  {
    if r.None? then None else Some(VisitStep(r.value))
  }

  /** A finished scan names the legal move of maximal score that comes
      first in visiting order, and names one whenever a free cell exists. */
  lemma FinishedScanChoosesFirstMax(b: BoardData, r: Option<Move>, best: int)
    requires FirstMaxSoFar(Legal(b), Scores(b), Width * Height, StepOf(r), best)
    requires r.Some? ==> r.value == ColumnMajor(VisitStep(r.value))
    ensures r.Some? <==> HasEmptyCell(b)
    ensures r.Some? ==> CanMakeMovement(b, r.value)
    ensures r.Some? ==> forall j :: 0 <= j < Width * Height && CanMakeMovement(b, ColumnMajor(j)) ==>
              TrialScore(b, ColumnMajor(j)) <= TrialScore(b, r.value)
    ensures r.Some? ==> forall j :: 0 <= j < VisitStep(r.value) && CanMakeMovement(b, ColumnMajor(j)) ==>
              TrialScore(b, ColumnMajor(j)) < TrialScore(b, r.value)
  {
    if HasEmptyCell(b) {
      FreeCellIsVisited(b);
    }
  }

  /** One pass of the top-level loop body at visit step n: a cell that may
      be played is scored on a copy, and it replaces the best move only
      with a strictly greater score. */
  method VisitCell(b: BoardData, n: nat, attempted: Move, r: Option<Move>, bestScore: int)
    returns (r': Option<Move>, bestScore': int)
    requires n < Width * Height && attempted == ColumnMajor(n)
    requires FirstMaxSoFar(Legal(b), Scores(b), n, StepOf(r), bestScore)
    requires r.Some? ==> r.value == ColumnMajor(VisitStep(r.value))
    ensures FirstMaxSoFar(Legal(b), Scores(b), n + 1, StepOf(r'), bestScore')
    ensures r'.Some? ==> r'.value == ColumnMajor(VisitStep(r'.value))
    ensures r' != r ==> r' == Some(attempted) && CanMakeMovement(b, attempted)
  {
    ghost var legal, score := Legal(b), Scores(b);
    FirstMaxStep(legal, score, n, StepOf(r), bestScore);
    r', bestScore' := r, bestScore;
    if CanMakeMovement(b, attempted) {
      var tentative := ScoreOnCopy(b, attempted);
      assert legal[n] && score[n] == tentative;
      if bestScore < tentative {
        bestScore' := tentative;
        r' := Some(attempted);
        assert StepOf(r') == Some(n);
      }
    } else {
      assert !legal[n];
    }
  }

  /** The chosen move is legal; it exists exactly when the board has a free
      cell (otherwise `best_movement` is returned unassigned, `None`); no
      legal move scores higher; and since only a strictly greater score
      replaces the best, every legal move visited earlier scores lower. */
  method ComputeNextAiMovement(b: BoardData) returns (r: Option<Move>)
    ensures r.Some? <==> HasEmptyCell(b)
    ensures r.Some? ==> CanMakeMovement(b, r.value)
    ensures r.Some? ==> forall j :: 0 <= j < Width * Height && CanMakeMovement(b, ColumnMajor(j)) ==>
              TrialScore(b, ColumnMajor(j)) <= TrialScore(b, r.value)
    ensures r.Some? ==> forall j :: 0 <= j < VisitStep(r.value) && CanMakeMovement(b, ColumnMajor(j)) ==>
              TrialScore(b, ColumnMajor(j)) < TrialScore(b, r.value)
  {
    var bestScore := -10000;
    r := None;
    var y := 0;
    while y < Height
      invariant y <= Height
      invariant FirstMaxSoFar(Legal(b), Scores(b), y * Width, StepOf(r), bestScore)
      invariant r.Some? ==> r.value == ColumnMajor(VisitStep(r.value))
    {
      var x := 0;
      while x < Width
        invariant x <= Width
        invariant FirstMaxSoFar(Legal(b), Scores(b), y * Width + x, StepOf(r), bestScore)
        invariant r.Some? ==> r.value == ColumnMajor(VisitStep(r.value))
      {
        var attempted := Move(y, x);
        assert attempted == ColumnMajor(y * Width + x);
        r, bestScore := VisitCell(b, y * Width + x, attempted, r, bestScore);
        x := x + 1;
      }
      y := y + 1;
    }
    FinishedScanChoosesFirstMax(b, r, bestScore);
  }
}
