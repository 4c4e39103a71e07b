/**
 The score-greedy computer player: it tries every legal (cell, height) pair
 on a copy of the board and keeps the one whose placement would earn the
 most points at once, gambling that every line it completes matches its
 clues, and penalising cells with at most two legal heights.
 */
module ScoreGreedy {
  import opened Rules
  import opened GameCore

  /**
   The visibility pre-check of the gamble on a completed line: it never
   objects, whatever the board, so the board is not a parameter here.
   */
  function VisibilityObviouslyWrong(index: Index, isRow: bool): (wrong: bool)
    ensures !wrong
  {
    false
  }

  /** Points the gamble expects from a line: 10 for completing it, 15 more unless visibly wrong. */
  function LineBet(complete: bool, wrong: bool): real {
    if complete then 10.0 + (if wrong then 0.0 else 15.0) else 0.0
  }

  /**
   The projected score of placing `v` at (`row`, `col`) of `g`: 1 point,
   the bets on the row and column it completes, 25 more when it completes
   both, and 5 off when the cell has at most two legal heights on `g`.
   */
  ghost function ProjectedScore(g: Grid, row: Index, col: Index, v: int): real {
    var h := Place(g, row, col, v);
    var rowComp, colComp := RowComplete(h, row), ColumnComplete(h, col);
    1.0 + LineBet(rowComp, VisibilityObviouslyWrong(row, true))
        + LineBet(colComp, VisibilityObviouslyWrong(col, false))
        + (if rowComp && colComp then 25.0 else 0.0)
        - (if LegalCount(g, row, col) <= 2 then 5.0 else 0.0)
  }

  /** The score of every (cell, height) pair of `g`. */
  ghost function ProjectedScores(g: Grid): (Index, Index, int) -> real {
    (r: Index, c: Index, v: int) => ProjectedScore(g, r, c, v)
  }

  /** The breakdown recorded for placing `v` at (`row`, `col`) of `g`. */
  ghost function GambleAt(g: Grid, row: Index, col: Index, v: int): Rationale {
    var h := Place(g, row, col, v);
    Gamble(row, col, v, LegalCount(g, row, col), RowComplete(h, row), ColumnComplete(h, col),
           ProjectedScore(g, row, col, v))
  }

  /**
   With the visibility check never objecting, the projected score is
   1 + 25 per completed line + 25 for both - 5 for a tight cell, so it lies
   in [-4, 76].
   */
  lemma ProjectedScoreClosedForm(g: Grid, row: Index, col: Index, v: int)
    ensures
      var h := Place(g, row, col, v);
      var rowComp, colComp := RowComplete(h, row), ColumnComplete(h, col);
      ProjectedScore(g, row, col, v) ==
        1.0 + (if rowComp then 25.0 else 0.0) + (if colComp then 25.0 else 0.0)
            + (if rowComp && colComp then 25.0 else 0.0)
            - (if LegalCount(g, row, col) <= 2 then 5.0 else 0.0)
    ensures -4.0 <= ProjectedScore(g, row, col, v) <= 76.0
  {
  }

  /** Which height is placed does not change which lines the placement completes. */
  lemma CompletionIgnoresHeight(g: Grid, row: Index, col: Index, v1: int, v2: int)
    requires v1 != 0 && v2 != 0
    ensures RowComplete(Place(g, row, col, v1), row) == RowComplete(Place(g, row, col, v2), row)
    ensures ColumnComplete(Place(g, row, col, v1), col) == ColumnComplete(Place(g, row, col, v2), col)
  {
    var h1, h2 := Place(g, row, col, v1), Place(g, row, col, v2);
    assert forall c: Index :: (h1[row][c] != 0) == (h2[row][c] != 0);
    assert forall r: Index :: (h1[r][col] != 0) == (h2[r][col] != 0);
  }

  /** So every height scores the same in a given cell. */
  lemma ProjectedScoreIgnoresHeight(g: Grid, row: Index, col: Index, v1: int, v2: int)
    requires v1 != 0 && v2 != 0
    ensures ProjectedScore(g, row, col, v1) == ProjectedScore(g, row, col, v2)
  {
    CompletionIgnoresHeight(g, row, col, v1, v2);
  }

  /** The chosen pair places the smallest legal height of its cell. */
  lemma ScorePicksSmallestHeight(g: Grid, m: Move)
    requires FirstBestPlacement(g, ProjectedScores(g), m)
    ensures IsSmallestLegal(g, m.row, m.col, m.value)
  {
    var score := ProjectedScores(g);
    forall w | 1 <= w < m.value
      ensures Conflict(g, m.row, m.col, w)
    {
      ProjectedScoreIgnoresHeight(g, m.row, m.col, w, m.value);
      assert BeforePlacement(m.row, m.col, w, m.row, m.col, m.value);
      assert score(m.row, m.col, w) == score(m.row, m.col, m.value);
    }
  }

  /** A placement completing both its row and column projects more than any completing neither. */
  lemma ScoreRewardsDoubleCompletion(g: Grid, r1: Index, c1: Index, v1: int, r2: Index, c2: Index, v2: int)
    requires RowComplete(Place(g, r1, c1, v1), r1) && ColumnComplete(Place(g, r1, c1, v1), c1)
    requires !RowComplete(Place(g, r2, c2, v2), r2) && !ColumnComplete(Place(g, r2, c2, v2), c2)
    ensures ProjectedScore(g, r1, c1, v1) > ProjectedScore(g, r2, c2, v2)
  {
  }

  class StrategyScore {
    const state: GameState

    constructor (state: GameState)
      ensures this.state == state
    {
      this.state := state;
    }

    /** A fresh 4×4 array holding the same cells as `original`. */
    method DeepCopyGrid(original: array2<int>) returns (copy: array2<int>)
      requires original.Length0 == N && original.Length1 == N
      ensures fresh(copy) && copy.Length0 == N && copy.Length1 == N
      ensures Cells(copy) == Cells(original)
    {
      copy := new int[N, N];
      for i := 0 to N
        invariant forall r: Index, c: Index :: r < i ==> copy[r, c] == original[r, c]
      {
        for j := 0 to N
          invariant forall r: Index, c: Index :: Before(r, c, i, j) ==> copy[r, c] == original[r, c]
        {
          copy[i, j] := original[i, j];
        }
      }
      GridsEqual(Cells(copy), Cells(original));
    }

    /** Is row `r` of `g` free of empty cells? */
    method IsRowComplete(g: array2<int>, r: Index) returns (complete: bool)
      requires g.Length0 == N && g.Length1 == N
      ensures complete == RowComplete(Cells(g), r)
    {
      for c := 0 to N
        invariant forall c': Index :: c' < c ==> g[r, c'] != 0
      {
        if g[r, c] == 0 {
          return false;
        }
      }
      return true;
    }

    /** Is column `c` of `g` free of empty cells? */
    method IsColumnComplete(g: array2<int>, c: Index) returns (complete: bool)
      requires g.Length0 == N && g.Length1 == N
      ensures complete == ColumnComplete(Cells(g), c)
    {
      for r := 0 to N
        invariant forall r': Index :: r' < r ==> g[r', c] != 0
      {
        if g[r, c] == 0 {
          return false;
        }
      }
      return true;
    }

    /**
     Simulates placing `value` at (`row`, `col`) on a copy of the board and
     scores the points it would earn; the board itself is left alone.
     */
    method EvaluateScore(row: Index, col: Index, value: int) returns (eval: CellEvaluation)
      requires state.Shaped()
      ensures eval == CellEvaluation(row, col, ProjectedScore(state.Board(), row, col, value),
                                     GambleAt(state.Board(), row, col, value))
    {
      ghost var g := state.Board();
      var temp := DeepCopyGrid(state.grid);
      temp[row, col] := value;
      GridsEqual(Cells(temp), Place(g, row, col, value));

      var score := 1.0;
      var rowComp := IsRowComplete(temp, row);
      var colComp := IsColumnComplete(temp, col);
      if rowComp {
        score := score + 10.0;
        if !VisibilityObviouslyWrong(row, true) {
          score := score + 15.0;
        }
      }
      if colComp {
        score := score + 10.0;
        if !VisibilityObviouslyWrong(col, false) {
          score := score + 15.0;
        }
      }
      if rowComp && colComp {
        score := score + 25.0;
      }
      var legalCount := CountLegalValues(state.grid, row, col);
      if legalCount <= 2 {
        score := score - 5.0;
      }
      return CellEvaluation(row, col, score, Gamble(row, col, value, legalCount, rowComp, colComp, score));
    }

    /**
     The heat-map value of a cell: 0 for a filled cell, otherwise the best
     projected score over its legal heights, floored at 0.
     */
    method EvaluateCell(row: Index, col: Index) returns (best: real)
      requires state.Shaped()
      ensures state.Board()[row][col] != 0 ==> best == 0.0
      ensures best >= 0.0
      ensures forall v :: IsLegalMove(state.Board(), row, col, v) ==> ProjectedScore(state.Board(), row, col, v) <= best
      ensures best == 0.0 || exists v :: IsLegalMove(state.Board(), row, col, v) && best == ProjectedScore(state.Board(), row, col, v)
    {
      ghost var g := state.Board();
      if state.grid[row, col] != 0 {
        return 0.0;
      }
      best := 0.0;
      for v := 1 to N + 1
        invariant best >= 0.0
        invariant forall w :: 1 <= w < v && IsLegalMove(g, row, col, w) ==> ProjectedScore(g, row, col, w) <= best
        invariant best == 0.0 || exists w :: IsLegalMove(g, row, col, w) && best == ProjectedScore(g, row, col, w)
      {
        var conflict := HasConflict(state.grid, row, col, v);
        if !conflict {
          var eval := EvaluateScore(row, col, v);
          if eval.score > best {
            best := eval.score;
          }
        }
      }
    }

    /** Whether the running best of the scan is right up to position (`r`, `c`, `v`). */
    ghost predicate Running(found: bool, best: Move, bestScore: real, bestExplanation: Rationale, r: int, c: int, v: int)
      requires state.Shaped()
      reads state, state.grid
    {
      var g := state.Board();
      && (found ==> BestPlacementBefore(g, ProjectedScores(g), best, r, c, v))
      && (found ==> bestScore == ProjectedScore(g, best.row, best.col, best.value))
      && (found ==> bestExplanation == GambleAt(g, best.row, best.col, best.value))
      && (!found ==> NoLegalBefore(g, r, c, v))
    }

    /** One step of the scan: visits height `v` of (`r`, `c`), keeping the running best. */
    method VisitHeight(r: Index, c: Index, v: int, found0: bool, best0: Move, bestScore0: real, bestExplanation0: Rationale)
      returns (found: bool, best: Move, bestScore: real, bestExplanation: Rationale)
      requires state.Shaped()
      requires IsHeight(v) && state.Board()[r][c] == 0
      requires Running(found0, best0, bestScore0, bestExplanation0, r, c, v)
      ensures Running(found, best, bestScore, bestExplanation, r, c, v + 1)
    {
      ghost var g := state.Board();
      ghost var score := ProjectedScores(g);
      found, best, bestScore, bestExplanation := found0, best0, bestScore0, bestExplanation0;
      var conflict := HasConflict(state.grid, r, c, v);
      if !conflict {
        var eval := EvaluateScore(r, c, v);
        if !found {
          BestPlacementFirst(g, score, r, c, v);
        } else if eval.score > bestScore {
          BestPlacementReplace(g, score, best, r, c, v);
        } else {
          BestPlacementKeep(g, score, best, r, c, v);
        }
        if !found || eval.score > bestScore {
          found := true;
          bestScore, best := eval.score, Move(r, c, v);
          bestExplanation := eval.explanation;
        }
      } else if found {
        BestPlacementKeep(g, score, best, r, c, v);
      } else {
        NoLegalBeforeStep(g, r, c, v);
      }
    }

    /**
     One cell's step of the scan: visits the heights of (`r`, `c`) in
     ascending order when the cell is empty, keeping the running best.
     */
    method ScanCell(r: Index, c: Index, found0: bool, best0: Move, bestScore0: real, bestExplanation0: Rationale)
      returns (found: bool, best: Move, bestScore: real, bestExplanation: Rationale)
      requires state.Shaped()
      requires Running(found0, best0, bestScore0, bestExplanation0, r, c, 0)
      ensures Running(found, best, bestScore, bestExplanation, r, c + 1, 0)
    {
      found, best, bestScore, bestExplanation := found0, best0, bestScore0, bestExplanation0;
      RunningSkips(found, best, bestScore, bestExplanation, r, c);
      if state.grid[r, c] != 0 {
        return;
      }
      found, best, bestScore, bestExplanation := ScanHeights(r, c, found, best, bestScore, bestExplanation);
      RunningSkips(found, best, bestScore, bestExplanation, r, c);
    }

    /** Visits the heights 1..N of the empty cell (`r`, `c`) in ascending order. */
    method ScanHeights(r: Index, c: Index, found0: bool, best0: Move, bestScore0: real, bestExplanation0: Rationale)
      returns (found: bool, best: Move, bestScore: real, bestExplanation: Rationale)
      requires state.Shaped() && state.Board()[r][c] == 0
      requires Running(found0, best0, bestScore0, bestExplanation0, r, c, 1)
      ensures Running(found, best, bestScore, bestExplanation, r, c, N + 1)
    {
      found, best, bestScore, bestExplanation := found0, best0, bestScore0, bestExplanation0;
      for v := 1 to N + 1
        invariant Running(found, best, bestScore, bestExplanation, r, c, v)
      {
        found, best, bestScore, bestExplanation := VisitHeight(r, c, v, found, best, bestScore, bestExplanation);
      }
    }

    /**
     Positions that hold no (cell, height) pair leave the running best as it
     is: height 0, the step past height N, and a filled cell.
     */
    lemma RunningSkips(found: bool, best: Move, bestScore: real, bestExplanation: Rationale, r: Index, c: Index)
      requires state.Shaped()
      ensures Running(found, best, bestScore, bestExplanation, r, c, 0) ==>
        Running(found, best, bestScore, bestExplanation, r, c, 1)
      ensures Running(found, best, bestScore, bestExplanation, r, c, N + 1) ==>
        Running(found, best, bestScore, bestExplanation, r, c + 1, 0)
      ensures state.grid[r, c] != 0 && Running(found, best, bestScore, bestExplanation, r, c, 0) ==>
        Running(found, best, bestScore, bestExplanation, r, c + 1, 0)
    {
      PlacementPositions(state.Board(), ProjectedScores(state.Board()), best, r, c);
    }

    /**
     Scans the legal (cell, height) pairs in row-major, then ascending-height
     order, keeping the first one with the highest projected score.
     */
    method ScanPlacements() returns (found: bool, best: Move, bestExplanation: Rationale)
      requires state.Shaped()
      ensures found ==> FirstBestPlacement(state.Board(), ProjectedScores(state.Board()), best)
      ensures found ==> bestExplanation == GambleAt(state.Board(), best.row, best.col, best.value)
      ensures !found ==> !AnyLegalMove(state.Board())
    {
      found := false;
      var bestScore := 0.0;
      best, bestExplanation := Move(0, 0, 0), NoRationale;
      for r := 0 to N
        invariant Running(found, best, bestScore, bestExplanation, r, 0, 0)
      {
        found, best, bestScore, bestExplanation := ScanRow(r, found, best, bestScore, bestExplanation);
      }
      EndOfPlacementScan(state.Board(), ProjectedScores(state.Board()), best);
    }

    /** Visits the cells of row `r` from left to right. */
    method ScanRow(r: Index, found0: bool, best0: Move, bestScore0: real, bestExplanation0: Rationale)
      returns (found: bool, best: Move, bestScore: real, bestExplanation: Rationale)
      requires state.Shaped()
      requires Running(found0, best0, bestScore0, bestExplanation0, r, 0, 0)
      ensures Running(found, best, bestScore, bestExplanation, r + 1, 0, 0)
    {
      found, best, bestScore, bestExplanation := found0, best0, bestScore0, bestExplanation0;
      for c := 0 to N
        invariant Running(found, best, bestScore, bestExplanation, r, c, 0)
      {
        found, best, bestScore, bestExplanation := ScanCell(r, c, found, best, bestScore, bestExplanation);
      }
      RunningNextRow(found, best, bestScore, bestExplanation, r);
    }

    /** The end of row `r` is the start of row `r` + 1. */
    lemma RunningNextRow(found: bool, best: Move, bestScore: real, bestExplanation: Rationale, r: Index)
      requires state.Shaped()
      ensures Running(found, best, bestScore, bestExplanation, r, N, 0) ==>
        Running(found, best, bestScore, bestExplanation, r + 1, 0, 0)
    {
      PlacementPositions(state.Board(), ProjectedScores(state.Board()), best, r, N - 1);
    }

    /**
     Picks the first legal pair with the highest projected score; reports no
     move exactly when the board is deadlocked.
     */
    method FindBestMove() returns (move: Option<Move>)
      requires state.Shaped()
      modifies state`cpuReasoningExplanation
      ensures move.None? <==> !AnyLegalMove(state.Board())
      ensures move.Some? ==>
        var m, g := move.value, state.Board();
        && FirstBestPlacement(g, ProjectedScores(g), m)
        && IsSmallestLegal(g, m.row, m.col, m.value)
        && state.cpuReasoningExplanation == GambleAt(g, m.row, m.col, m.value)
      ensures move.None? ==> state.cpuReasoningExplanation == old(state.cpuReasoningExplanation)
    {
      var found, best, bestExplanation := ScanPlacements();
      if !found {
        return None;
      }
      ScorePicksSmallestHeight(state.Board(), best);
      state.cpuReasoningExplanation := bestExplanation;
      return Some(best);
    }
  }
}
