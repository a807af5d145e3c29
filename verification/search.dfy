/** alpha_beta_pruning: minimax with alpha-beta cutoffs, depth-adjusted
    terminal scores and a positional bonus for the locally best move.

    The program makes and unmakes trial moves on one live board. The model
    passes that board along: each trial writes the mark, hands the board to
    the recursive call, takes back whatever the call left and writes the
    saved colour over the trial cell. That the board comes back unchanged is
    then a proved property and not an assumption. */
module Search {
  import opened Wrappers
  import opened Board
  import opened Players
  import opened Winner

  const PositiveInfinity: int := 1000 * 1000 * 1000
  const NegativeInfinity: int := -1000 * 1000 * 1000

  /** PREFERENCE_FILTER, indexed [y][x]: centre 20, corners 5, edges 0. */
  const PreferenceFilter: seq<seq<int>> := [[5, 0, 5], [0, 20, 0], [5, 0, 5]]

  function Preference(m: Move): (r: int)
    requires InRange(m)
    ensures 0 <= r <= 20
    ensures r == 20 <==> m == Move(1, 1)
    ensures r == 5 <==> m.x != 1 && m.y != 1
    ensures r == 0 <==> (m.x == 1) != (m.y == 1)
  {
    PreferenceFilter[m.y][m.x]
  }

  /** What a call of alpha_beta_pruning yields: its score and the live board
      as the caller sees it on return; `Undefined` when the program would
      read `best_movement` before assigning it. */
  datatype Eval = Eval(score: int, board: BoardData) | Undefined

  /** The locals of one node's move loop, together with the live board. */
  datatype Frame = Frame(board: BoardData, alpha: int, beta: int, value: int,
                         bestScore: int, bestMove: Option<Move>)

  /** Initial `value` of a node. */
  function StartValue(p: PlayerColor): int
  {
    if p == PlayerO then NegativeInfinity else PositiveInfinity
  }

  /** Initial `best_score` of a node: the sentinel a child must beat. */
  function Sentinel(p: PlayerColor): int
  {
    if p == PlayerO then -1000 else 1000
  }

  /** The cell the move loop visits at step k: row-major, y outer, x inner. */
  function RowMajor(k: nat): (m: Move)
    requires k < Width * Height
    ensures InRange(m) && m.y * Width + m.x == k
  {
    Move(k % Width, k / Width)
  }

  /** Where the loop resumes after the `break`: it leaves only the inner x
      loop, so the next row still begins. */
  function NextRow(k: nat): (k': nat)
    requires k < Width * Height
    ensures k < k' <= Width * Height
    ensures k' % Width == 0 && k' / Width == k / Width + 1
  {
    (k / Width + 1) * Width
  }

  /** `value >= beta` for the maximiser, `value <= alpha` for the minimiser:
      the node's value is already no better for the opponent than the bound
      the opponent holds, so the opponent will not let play reach it. */
  predicate CutOff(p: PlayerColor, f: Frame)
    ensures CutOff(p, f) <==>
              !Beats(InvertPlayerColor(p), f.value, if p == PlayerO then f.beta else f.alpha)
  {
    if p == PlayerO then f.value >= f.beta else f.value <= f.alpha
  }

  function AlphaBeta(b: BoardData, depth: int, alpha: int, beta: int, p: PlayerColor): (r: Eval)
    decreases EmptyCount(b), 1, 0
    ensures r.Eval? ==> r.board == b
  {
    match GetWinnerStatus(b)
    case WinX => Eval(-100 + depth, b)
    case WinO => Eval(100 - depth, b)
    case WinTie => Eval(0, b)
    case WinNA =>
      match Scan(depth, p, 0, Frame(b, alpha, beta, StartValue(p), Sentinel(p), None))
      case None => Undefined
      case Some(f) =>
        match f.bestMove
        case None => Undefined
        case Some(m) =>
          var score := if p == PlayerO then f.value + Preference(m) else f.value - Preference(m);
          Eval(score, f.board)
  }

  /** The move loop of one node from step k on. */
  function Scan(depth: int, p: PlayerColor, k: nat, f: Frame): (r: Option<Frame>)
    requires k <= Width * Height
    requires f.bestMove.Some? ==> InRange(f.bestMove.value)
    decreases EmptyCount(f.board), 0, Width * Height - k
    ensures r.Some? ==> r.value.board == f.board
    ensures r.Some? && r.value.bestMove.Some? ==> InRange(r.value.bestMove.value)
  {
    if k == Width * Height then Some(f)
    else
      var m := RowMajor(k);
      if !CanMakeMovement(f.board, m) then Scan(depth, p, k + 1, f)
      else
        var saved := GetCellColorViaMovement(f.board, m);
        var trial := SetCellColorViaMovement(f.board, m, PlayerCellColor(p));
        MarkingFillsOneCell(f.board, m, PlayerCellColor(p));
        match AlphaBeta(trial, depth + 1, f.alpha, f.beta, InvertPlayerColor(p))
        case Undefined => None
        case Eval(tentative, after) =>
          var restored := SetCellColorViaMovement(after, m, saved);
          assert restored == f.board;
          var next := Record(p, m, f.(board := restored), tentative);
          if CutOff(p, next) then Scan(depth, p, NextRow(k), next)
          else Scan(depth, p, k + 1, Tighten(p, next))
  }

  /** Score `s` is strictly better than `t` for player `p`: higher for the
      maximiser O, lower for the minimiser X. */
  predicate Beats(p: PlayerColor, s: int, t: int)
  {
    if p == PlayerO then s > t else s < t
  }

  /** The bookkeeping after the child for move `m` returned `tentative`:
      `best_score`/`best_movement` change only on a strict improvement, and
      `value` becomes the better of itself and `tentative` (MAX for O, MIN
      for X). */
  function Record(p: PlayerColor, m: Move, f: Frame, tentative: int): (r: Frame)
    ensures r.board == f.board && r.alpha == f.alpha && r.beta == f.beta
    ensures Beats(p, tentative, f.bestScore) ==> r.bestMove == Some(m) && r.bestScore == tentative
    ensures !Beats(p, tentative, f.bestScore) ==> r.bestMove == f.bestMove && r.bestScore == f.bestScore
    ensures r.value in {f.value, tentative}
    ensures !Beats(p, f.value, r.value) && !Beats(p, tentative, r.value)
  {
    var improves := if p == PlayerO then f.bestScore < tentative else f.bestScore > tentative;
    var value := if p == PlayerO then Max(f.value, tentative) else Min(f.value, tentative);
    if improves then f.(value := value, bestScore := tentative, bestMove := Some(m))
    else f.(value := value)
  }

  /** Without a cutoff the maximiser raises alpha to `value` and the
      minimiser lowers beta to it. */
  function Tighten(p: PlayerColor, f: Frame): (r: Frame)
    ensures r.(alpha := f.alpha, beta := f.beta) == f
    ensures p == PlayerO ==> r.beta == f.beta && r.alpha >= f.alpha && r.alpha >= f.value
                             && r.alpha in {f.alpha, f.value}
    ensures p == PlayerX ==> r.alpha == f.alpha && r.beta <= f.beta && r.beta <= f.value
                             && r.beta in {f.beta, f.value}
  {
    if p == PlayerO then f.(alpha := Max(f.alpha, f.value))
    else f.(beta := Min(f.beta, f.value))
  }

  /** A decided board is scored at once and left as it was: an X win is
      -100 + depth, an O win 100 - depth, a full board without a line 0. */
  lemma TerminalScores(b: BoardData, depth: int, alpha: int, beta: int, p: PlayerColor)
    ensures HasLine(b, X) && !HasLine(b, O) ==> AlphaBeta(b, depth, alpha, beta, p) == Eval(-100 + depth, b)
    ensures HasLine(b, O) && !HasLine(b, X) ==> AlphaBeta(b, depth, alpha, beta, p) == Eval(100 - depth, b)
    ensures !HasLine(b, X) && !HasLine(b, O) && !HasEmptyCell(b) ==> AlphaBeta(b, depth, alpha, beta, p) == Eval(0, b)
  {
  }

  /** The search below a node at `depth` only reaches terminal scores within
      +-100: depth is not negative and cannot grow past 200. */
  predicate DepthInRange(b: BoardData, depth: int)
  {
    0 <= depth && depth + EmptyCount(b) <= 200
  }

  /** A score bound for a node with `EmptyCount(b)` free cells: 100 for a
      terminal board, and at most 20 more per level for the bonus. */
  function ScoreBound(b: seq<Cell>): int
  {
    100 + 20 * EmptyCount(b)
  }

  /** The bound on a child's score, a board with one free cell fewer. */
  function ChildBound(b: seq<Cell>): int
  {
    ScoreBound(b) - 20
  }

  /** What the move loop keeps: before any child beat the sentinel, `value`
      and `best_score` are still their initial values; afterwards they are
      equal, bounded by the children's bound, and `best_movement` is a cell. */
  predicate FrameInvariant(p: PlayerColor, f: Frame, bound: int)
  {
    && (f.bestMove.None? ==> f.value == StartValue(p) && f.bestScore == Sentinel(p))
    && (f.bestMove.Some? ==> InRange(f.bestMove.value) && f.value == f.bestScore
                             && -bound <= f.value <= bound)
  }

  /** Sentinel safety: every node returns a score, so `best_movement` is
      assigned before it indexes PREFERENCE_FILTER, and the score stays well
      inside the +-1000 sentinels. */
  lemma {:induction false} AlphaBetaBounded(b: BoardData, depth: int, alpha: int, beta: int, p: PlayerColor)
    requires DepthInRange(b, depth)
    decreases EmptyCount(b), 1, 0, 0
    ensures AlphaBeta(b, depth, alpha, beta, p).Eval?
    ensures -ScoreBound(b) <= AlphaBeta(b, depth, alpha, beta, p).score <= ScoreBound(b)
  {
    if GetWinnerStatus(b) == WinNA {
      var f := Frame(b, alpha, beta, StartValue(p), Sentinel(p), None);
      var i :| 0 <= i < |b| && b[i].Empty?;
      assert RowMajor(i) == Move(i % Width, i / Width);
      ScanBounded(depth, p, 0, f);
    }
  }

  lemma {:induction false} ScanBounded(depth: int, p: PlayerColor, k: nat, f: Frame)
    requires k <= Width * Height
    requires DepthInRange(f.board, depth)
    requires FrameInvariant(p, f, ChildBound(f.board))
    decreases EmptyCount(f.board), 0, Width * Height - k, 1
    ensures Scan(depth, p, k, f).Some?
    ensures FrameInvariant(p, Scan(depth, p, k, f).value, ChildBound(f.board))
    ensures f.bestMove.Some? || (exists i :: k <= i < |f.board| && f.board[i].Empty?) ==>
              Scan(depth, p, k, f).value.bestMove.Some?
  {
    if k < Width * Height {
      if !CanMakeMovement(f.board, RowMajor(k)) {
        ScanBounded(depth, p, k + 1, f);
        if i :| k <= i < |f.board| && f.board[i].Empty? {
          assert i != k;
        }
      } else {
        ScanBoundedAtFreeCell(depth, p, k, f);
      }
    }
  }

  /** The step of ScanBounded at a free cell: the child's score is within
      the children's bound, so recording it keeps the invariant and sets the
      best move, and the rest of the loop keeps both. */
  lemma {:induction false} ScanBoundedAtFreeCell(depth: int, p: PlayerColor, k: nat, f: Frame)
    requires k < Width * Height
    requires DepthInRange(f.board, depth)
    requires FrameInvariant(p, f, ChildBound(f.board))
    requires CanMakeMovement(f.board, RowMajor(k))
    decreases EmptyCount(f.board), 0, Width * Height - k, 0
    ensures Scan(depth, p, k, f).Some?
    ensures FrameInvariant(p, Scan(depth, p, k, f).value, ChildBound(f.board))
    ensures Scan(depth, p, k, f).value.bestMove.Some?
  {
    var m := RowMajor(k);
    var trial := SetCellColorViaMovement(f.board, m, PlayerCellColor(p));
    MarkingFillsOneCell(f.board, m, PlayerCellColor(p));
    AlphaBetaBounded(trial, depth + 1, f.alpha, f.beta, InvertPlayerColor(p));
    var child := AlphaBeta(trial, depth + 1, f.alpha, f.beta, InvertPlayerColor(p));
    var next := Record(p, m, f, child.score);
    RecordKeepsInvariant(p, m, f, child.score, ChildBound(f.board));
    ScanLegalStep(depth, p, k, f);
    if CutOff(p, next) {
      ScanBounded(depth, p, NextRow(k), next);
    } else {
      ScanBounded(depth, p, k + 1, Tighten(p, next));
    }
  }

  /** One step of the move loop at a free cell whose child search returned
      a score: the trial is undone and the loop goes on from the next cell,
      or from the next row after a cutoff. */
  lemma ScanLegalStep(depth: int, p: PlayerColor, k: nat, f: Frame)
    requires k < Width * Height
    requires f.bestMove.Some? ==> InRange(f.bestMove.value)
    requires CanMakeMovement(f.board, RowMajor(k))
    requires AlphaBeta(SetCellColorViaMovement(f.board, RowMajor(k), PlayerCellColor(p)),
                       depth + 1, f.alpha, f.beta, InvertPlayerColor(p)).Eval?
    ensures var next := Record(p, RowMajor(k), f,
                               AlphaBeta(SetCellColorViaMovement(f.board, RowMajor(k), PlayerCellColor(p)),
                                         depth + 1, f.alpha, f.beta, InvertPlayerColor(p)).score);
            Scan(depth, p, k, f) ==
              if CutOff(p, next) then Scan(depth, p, NextRow(k), next)
              else Scan(depth, p, k + 1, Tighten(p, next))
  {
    var m := RowMajor(k);
    var child := AlphaBeta(SetCellColorViaMovement(f.board, m, PlayerCellColor(p)),
                           depth + 1, f.alpha, f.beta, InvertPlayerColor(p));
    var restored := SetCellColorViaMovement(child.board, m, GetCellColorViaMovement(f.board, m));
    assert restored == f.board;
    assert f.(board := restored) == f;
  }

  /** Occupied cells are skipped: over a stretch with no free cell the move
      loop neither searches nor changes the frame. */
  lemma {:induction false} ScanSkipsOccupied(depth: int, p: PlayerColor, k: nat, f: Frame)
    requires k <= Width * Height
    requires f.bestMove.Some? ==> InRange(f.bestMove.value)
    requires forall i :: k <= i < Width * Height ==> !f.board[i].Empty?
    ensures Scan(depth, p, k, f) == Some(f)
    decreases Width * Height - k
  {
    if k < Width * Height {
      assert !CanMakeMovement(f.board, RowMajor(k));
      ScanSkipsOccupied(depth, p, k + 1, f);
    }
  }

  /** A child score inside the bound always beats the +-1000 sentinel, so
      the first child evaluated sets `best_movement`. */
  lemma RecordKeepsInvariant(p: PlayerColor, m: Move, f: Frame, tentative: int, bound: int)
    requires InRange(m)
    requires bound < 1000
    requires -bound <= tentative <= bound
    requires FrameInvariant(p, f, bound)
    ensures FrameInvariant(p, Record(p, m, f, tentative), bound)
    ensures Record(p, m, f, tentative).bestMove.Some?
  {
  }

  /** The partial cutoff: once a node has cut off, the loop goes on visiting
      the first free cell of each later row, but alpha and beta never change
      again and the cutoff condition keeps holding. */
  lemma {:induction false} CutOffFreezesWindow(depth: int, p: PlayerColor, k: nat, f: Frame)
    requires k <= Width * Height
    requires f.bestMove.Some? ==> InRange(f.bestMove.value)
    requires CutOff(p, f)
    decreases Width * Height - k
    ensures Scan(depth, p, k, f).Some? ==>
              var r := Scan(depth, p, k, f).value;
              r.alpha == f.alpha && r.beta == f.beta && CutOff(p, r)
  {
    if k < Width * Height {
      var m := RowMajor(k);
      if !CanMakeMovement(f.board, m) {
        CutOffFreezesWindow(depth, p, k + 1, f);
      } else {
        var trial := SetCellColorViaMovement(f.board, m, PlayerCellColor(p));
        match AlphaBeta(trial, depth + 1, f.alpha, f.beta, InvertPlayerColor(p))
        case Undefined =>
        case Eval(tentative, after) =>
          CutOffFreezesWindow(depth, p, NextRow(k), Record(p, m, f, tentative));
      }
    }
  }

  /** The MAX macro: the larger argument. */
  function Max(a: int, b: int): (r: int)
    ensures r >= a && r >= b && r in {a, b}
  {
    if a > b then a else b
  }

  /** The MIN macro: the smaller argument. */
  function Min(a: int, b: int): (r: int)
    ensures r <= a && r <= b && r in {a, b}
  {
    if a < b then a else b
  }
}
