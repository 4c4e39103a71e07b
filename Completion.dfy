/**
 The completion computer player: it rushes to finish rows and columns,
 preferring the empty cell whose row and column have the fewest empty cells
 left, with a bonus for a cell that is the last gap of its row, of its
 column, or of both. Legality plays no part in the ranking: the smallest
 legal height is looked up only for the chosen cell, and no move is made
 when that cell has none.
 */
module Completion {
  import opened Rules
  import opened GameCore

  /**
   The priority 100/(e+1) of a line with `e` empty cells, for the counts a
   4-cell line can have, as exact rationals.
   */
  function Priority(e: nat): real
    requires e <= N
  {
    if e == 0 then 100.0 else if e == 1 then 50.0 else if e == 2 then 100.0 / 3.0
    else if e == 3 then 25.0 else 20.0
  }

  /** The tabulated priority is the quotient 100/(e+1). */
  lemma PriorityIsQuotient(e: nat)
    requires e <= N
    ensures Priority(e) == 100.0 / (e + 1) as real
  {
  }

  /** The bonus for being the last gap of the row, of the column, or of both. */
  function CompletionBonus(emptyRow: nat, emptyCol: nat): real {
    (if emptyRow == 1 then 50.0 else 0.0) + (if emptyCol == 1 then 50.0 else 0.0) +
    (if emptyRow == 1 && emptyCol == 1 then 100.0 else 0.0)
  }

  /** The score of a cell whose row has `emptyRow` and whose column has `emptyCol` empty cells. */
  function CompletionScore(emptyRow: nat, emptyCol: nat): real
    requires emptyRow <= N && emptyCol <= N
  {
    Priority(emptyRow) + Priority(emptyCol) + CompletionBonus(emptyRow, emptyCol)
  }

  /** The breakdown recorded for such a cell. */
  function CompletionRationale(row: Index, col: Index, emptyRow: nat, emptyCol: nat): Rationale
    requires emptyRow <= N && emptyCol <= N
  {
    Completion(row, col, emptyRow, Priority(emptyRow), emptyCol, Priority(emptyCol),
               CompletionBonus(emptyRow, emptyCol), CompletionScore(emptyRow, emptyCol))
  }

  /** The breakdown recorded for cell (`r`, `c`) of `g`. */
  ghost function RationaleAt(g: Grid, r: Index, c: Index): Rationale {
    CompletionRationale(r, c, EmptyCount(g[r]), EmptyCount(Column(g, c)))
  }

  /** The score of every cell of `g`. */
  ghost function CompletionScores(g: Grid): (Index, Index) -> real {
    (r: Index, c: Index) => CompletionScore(EmptyCount(g[r]), EmptyCount(Column(g, c)))
  }

  /** A line with fewer empty cells has a strictly higher priority. */
  lemma PriorityDecreasing(e1: nat, e2: nat)
    requires e1 < e2 <= N
    ensures Priority(e1) > Priority(e2)
  {
  }

  /**
   For an empty cell (both counts at least 1) the score is positive and at
   most 300, and it is 300 exactly when the cell is the last gap of both its
   row and its column.
   */
  lemma CompletionScoreBounds(emptyRow: nat, emptyCol: nat)
    requires 1 <= emptyRow <= N && 1 <= emptyCol <= N
    ensures 0.0 < CompletionScore(emptyRow, emptyCol) <= 300.0
    ensures CompletionScore(emptyRow, emptyCol) == 300.0 <==> emptyRow == 1 && emptyCol == 1
  {
  }

  /** Among empty cells, fewer empty cells in the row (or in the column) score strictly higher. */
  lemma CompletionScoreDecreasing(e1: nat, e2: nat, other: nat)
    requires 1 <= e1 < e2 <= N && other <= N
    ensures CompletionScore(e1, other) > CompletionScore(e2, other)
    ensures CompletionScore(other, e1) > CompletionScore(other, e2)
  {
    PriorityDecreasing(e1, e2);
  }

  /** An empty cell leaves at least one empty cell in its row and in its column. */
  lemma EmptyCellCounts(g: Grid, r: Index, c: Index)
    requires g[r][c] == 0
    ensures 1 <= EmptyCount(g[r]) <= N && 1 <= EmptyCount(Column(g, c)) <= N
  {
    EmptyCountBounds(g[r], c);
    EmptyCountBounds(Column(g, c), r);
  }

  /**
   If some empty cell is the last gap of both its row and its column, the
   chosen cell is one too.
   */
  lemma CompletionPrefersLastGap(g: Grid, row: Index, col: Index, r: Index, c: Index)
    requires FirstBestCell(g, CompletionScores(g), row, col)
    requires g[r][c] == 0 && EmptyCount(g[r]) == 1 && EmptyCount(Column(g, c)) == 1
    ensures EmptyCount(g[row]) == 1 && EmptyCount(Column(g, col)) == 1
  {
    var score := CompletionScores(g);
    EmptyCellCounts(g, row, col);
    CompletionScoreBounds(EmptyCount(g[row]), EmptyCount(Column(g, col)));
    CompletionScoreBounds(1, 1);
    assert score(r, c) <= score(row, col);
  }

  /**
   Legality is ignored when ranking: on this board the last gap (0, 0) of
   row 0 and column 0 scores the maximum 300 but admits no height, while
   (1, 1) still admits 2, so the player makes no move on a board that is
   not deadlocked.
   */
  lemma CompletionCanStall(g: Grid)
    requires g == [[0, 1, 2, 3], [4, 0, 0, 0], [1, 0, 0, 0], [2, 0, 0, 0]]
    ensures FirstBestCell(g, CompletionScores(g), 0, 0)
    ensures LegalCount(g, 0, 0) == 0
    ensures AnyLegalMove(g)
  {
    var score := CompletionScores(g);
    assert g[0] == [0, 1, 2, 3];
    assert EmptyCount(g[0]) == 1 && EmptyCount(Column(g, 0)) == 1 by {
      var col0 := Column(g, 0);
      assert col0 == [0, 4, 1, 2];
      assert EmptyCount([0, 4, 1, 2]) == 1;
    }
    CompletionScoreBounds(1, 1);
    forall r: Index, c: Index | g[r][c] == 0
      ensures score(r, c) <= score(0, 0)
    {
      EmptyCellCounts(g, r, c);
      CompletionScoreBounds(EmptyCount(g[r]), EmptyCount(Column(g, c)));
    }
    forall v | 1 <= v <= N
      ensures Conflict(g, 0, 0, v)
    {
      if v == 4 {
        assert g[1][0] == 4;
      } else {
        assert g[0][v] == v;
      }
    }
    assert LegalValues(g, 0, 0) == {};
    assert !Conflict(g, 1, 1, 2);
    assert IsLegalMove(g, 1, 1, 2);
  }

  class StrategyCompletion {
    const state: GameState

    constructor (state: GameState)
      ensures this.state == state
    {
      this.state := state;
    }

    /** Scores one empty cell from the empty counts of its row and column. */
    method EvaluateCompletion(row: Index, col: Index) returns (eval: CellEvaluation)
      requires state.Shaped()
      ensures eval == CellEvaluation(row, col, CompletionScores(state.Board())(row, col), RationaleAt(state.Board(), row, col))
    {
      var emptyRow := state.CountEmptyInRow(row);
      var emptyCol := state.CountEmptyInColumn(col);
      var rowPriority := 100.0 / (emptyRow + 1) as real;
      var colPriority := 100.0 / (emptyCol + 1) as real;
      PriorityIsQuotient(emptyRow);
      PriorityIsQuotient(emptyCol);
      var bonus := 0.0;
      if emptyRow == 1 {
        bonus := bonus + 50.0;
      }
      if emptyCol == 1 {
        bonus := bonus + 50.0;
      }
      if emptyRow == 1 && emptyCol == 1 {
        bonus := bonus + 100.0;
      }
      var finalScore := rowPriority + colPriority + bonus;
      var explanation := Completion(row, col, emptyRow, rowPriority, emptyCol, colPriority, bonus, finalScore);
      return CellEvaluation(row, col, finalScore, explanation);
    }

    /** The heat-map value of a cell: 0 for a filled cell, otherwise its score, in (0, 300]. */
    method EvaluateCell(row: Index, col: Index) returns (heat: real)
      requires state.Shaped()
      ensures state.Board()[row][col] != 0 ==> heat == 0.0
      ensures state.Board()[row][col] == 0 ==>
        var g := state.Board();
        && heat == CompletionScore(EmptyCount(g[row]), EmptyCount(Column(g, col)))
        && 0.0 < heat <= 300.0
    {
      if state.grid[row, col] != 0 {
        return 0.0;
      }
      var eval := EvaluateCompletion(row, col);
      ghost var g := state.Board();
      EmptyCellCounts(g, row, col);
      CompletionScoreBounds(EmptyCount(g[row]), EmptyCount(Column(g, col)));
      return eval.score;
    }

    /** Whether the running best of the scan is right once every cell before (`r`, `c`) is visited. */
    ghost predicate Running(found: bool, bestRow: Index, bestCol: Index, bestScore: real, bestExplanation: Rationale, r: int, c: int)
      requires state.Shaped()
      reads state, state.grid
    {
      var g := state.Board();
      && (found ==> BestBefore(g, CompletionScores(g), bestRow, bestCol, r, c))
      && (found ==> bestScore == CompletionScores(g)(bestRow, bestCol))
      && (found ==> bestExplanation == RationaleAt(g, bestRow, bestCol))
      && (!found ==> NoEmptyBefore(g, r, c))
    }

    /** One step of the scan: visits (`r`, `c`), keeping the running best. */
    method VisitCell(r: Index, c: Index, found0: bool, bestRow0: Index, bestCol0: Index, bestScore0: real, bestExplanation0: Rationale)
      returns (found: bool, bestRow: Index, bestCol: Index, bestScore: real, bestExplanation: Rationale)
      requires state.Shaped()
      requires Running(found0, bestRow0, bestCol0, bestScore0, bestExplanation0, r, c)
      ensures Running(found, bestRow, bestCol, bestScore, bestExplanation, r, c + 1)
    {
      ghost var g := state.Board();
      ghost var score := CompletionScores(g);
      found, bestRow, bestCol, bestScore, bestExplanation := found0, bestRow0, bestCol0, bestScore0, bestExplanation0;
      if state.grid[r, c] == 0 {
        var eval := EvaluateCompletion(r, c);
        if !found {
          BestBeforeFirst(g, score, r, c);
        } else if eval.score > bestScore {
          BestBeforeReplace(g, score, bestRow, bestCol, r, c);
        } else {
          BestBeforeKeep(g, score, bestRow, bestCol, r, c);
        }
        if !found || eval.score > bestScore {
          found := true;
          bestScore, bestRow, bestCol := eval.score, r, c;
          bestExplanation := eval.explanation;
        }
      } else if found {
        BestBeforeKeep(g, score, bestRow, bestCol, r, c);
      } else {
        NoEmptyBeforeStep(g, r, c);
      }
    }

    /**
     Scans the empty cells in row-major order, keeping the first one with the
     highest score; reports whether there was an empty cell at all.
     */
    method ScanEmptyCells() returns (found: bool, bestRow: Index, bestCol: Index, bestExplanation: Rationale)
      requires state.Shaped()
      ensures found ==> FirstBestCell(state.Board(), CompletionScores(state.Board()), bestRow, bestCol)
      ensures found ==> bestExplanation == RationaleAt(state.Board(), bestRow, bestCol)
      ensures !found ==> forall r: Index, c: Index :: state.Board()[r][c] != 0
    {
      ghost var g := state.Board();
      ghost var score := CompletionScores(g);
      found := false;
      var bestScore := 0.0;
      bestRow, bestCol, bestExplanation := 0, 0, NoRationale;
      for r := 0 to N
        invariant Running(found, bestRow, bestCol, bestScore, bestExplanation, r, 0)
      {
        for c := 0 to N
          invariant Running(found, bestRow, bestCol, bestScore, bestExplanation, r, c)
        {
          found, bestRow, bestCol, bestScore, bestExplanation :=
            VisitCell(r, c, found, bestRow, bestCol, bestScore, bestExplanation);
        }
        EndOfRow(g, score, bestRow, bestCol, r);
      }
      EndOfScan(g, score, bestRow, bestCol);
    }

    /**
     Picks the first empty cell with the highest completion score and places
     the smallest legal height there; reports no move when no empty cell is
     left or when the chosen cell admits no height, even if other cells do.
     */
    method FindBestMove() returns (move: Option<Move>)
      requires state.Valid()
      modifies state`cpuReasoningExplanation
      ensures state.Valid()
      ensures move.None? <==>
        || (forall r: Index, c: Index :: state.Board()[r][c] != 0)
        || (exists r: Index, c: Index ::
              FirstBestCell(state.Board(), CompletionScores(state.Board()), r, c) && LegalCount(state.Board(), r, c) == 0)
      ensures !AnyLegalMove(state.Board()) ==> move.None?
      ensures move.Some? ==>
        var m, g := move.value, state.Board();
        && FirstBestCell(g, CompletionScores(g), m.row, m.col)
        && IsSmallestLegal(g, m.row, m.col, m.value)
        && state.cpuReasoningExplanation ==
           CompletionRationale(m.row, m.col, EmptyCount(g[m.row]), EmptyCount(Column(g, m.col)))
      ensures move.None? ==> state.cpuReasoningExplanation == old(state.cpuReasoningExplanation)
    {
      ghost var g := state.Board();
      var found, bestRow, bestCol, bestExplanation := ScanEmptyCells();
      if !found {
        return None;
      }
      var bestValue := FirstLegalValue(state.grid, bestRow, bestCol);
      if bestValue == -1 {
        return None;
      }
      state.cpuReasoningExplanation := bestExplanation;
      assert state.Board() == g;
      forall r: Index, c: Index | FirstBestCell(g, CompletionScores(g), r, c)
        ensures r == bestRow && c == bestCol
      {
        FirstBestCellUnique(g, CompletionScores(g), r, c, bestRow, bestCol);
      }
      assert IsLegalMove(g, bestRow, bestCol, bestValue);
      assert LegalCount(g, bestRow, bestCol) != 0;
      assert !(exists r: Index, c: Index :: FirstBestCell(g, CompletionScores(g), r, c) && LegalCount(g, r, c) == 0);
      assert g[bestRow][bestCol] == 0;
      return Some(Move(bestRow, bestCol, bestValue));
    }
  }
}
