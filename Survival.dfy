/**
 The survival computer player: it guards its lives by preferring the empty
 cell with the most legal heights, weighting that count more heavily the
 fewer lives the computer has left, and places the smallest legal height
 there. A cell with no legal height is a death trap scored -1000.
 */
module Survival {
  import opened Rules
  import opened GameCore

  /** The weight on a cell's legal-height count: 4 when lives are critical, down to 1 when safe. */
  function EmergencyMultiplier(lives: int): (m: real)
    ensures 1.0 <= m <= 4.0
    ensures m == 4.0 <==> lives <= 15
    ensures m == 1.0 <==> lives > 75
  {
    if lives <= 15 then 4.0
    else if lives <= 30 then 3.0
    else if lives <= 50 then 2.0
    else if lives <= 75 then 1.5
    else 1.0
  }

  /**
   The alert level shown with the survival rationale. It uses the same
   thresholds as the multiplier: each level goes with exactly one weight.
   */
  function EmergencyStatusOf(lives: int): (s: EmergencyStatus)
    ensures s == Critical <==> EmergencyMultiplier(lives) == 4.0
    ensures s == Emergency <==> EmergencyMultiplier(lives) == 3.0
    ensures s == Warning <==> EmergencyMultiplier(lives) == 2.0
    ensures s == Alert <==> EmergencyMultiplier(lives) == 1.5
    ensures s == Safe <==> EmergencyMultiplier(lives) == 1.0
  {
    if lives <= 15 then Critical
    else if lives <= 30 then Emergency
    else if lives <= 50 then Warning
    else if lives <= 75 then Alert
    else Safe
  }

  /** The multiplier lies in [1, 4] and never grows as lives grow. */
  lemma EmergencyMultiplierMonotone(l1: int, l2: int)
    requires l1 <= l2
    ensures 1.0 <= EmergencyMultiplier(l2) <= EmergencyMultiplier(l1) <= 4.0
  {
  }

  /**
   The score of a cell with `k` legal heights: -1000 for none, otherwise
   25 per legal height times the multiplier, plus a twentieth of the lives
   already lost.
   */
  function SurvivalScore(k: nat, multiplier: real, lives: int): real {
    if k == 0 then -1000.0
    else k as real * 25.0 * multiplier + (100.0 - lives as real) / 20.0
  }

  /** The breakdown recorded for a cell with `k` legal heights. */
  function SurvivalRationale(status: EmergencyStatus, row: Index, col: Index, lives: int, k: nat, multiplier: real): Rationale {
    if k == 0 then DeathTrap(row, col)
    else Survival(status, row, col, lives, k, k as real * 25.0, multiplier,
                  (100.0 - lives as real) / 20.0, SurvivalScore(k, multiplier, lives))
  }

  /** The score of every cell of `g` when the computer has `lives` lives. */
  ghost function SurvivalScores(g: Grid, lives: int): (Index, Index) -> real {
    (r: Index, c: Index) => SurvivalScore(LegalCount(g, r, c), EmergencyMultiplier(lives), lives)
  }

  /** With a positive multiplier, more legal heights score strictly higher. */
  lemma SurvivalScoreIncreasing(k1: nat, k2: nat, multiplier: real, lives: int)
    requires 1 <= k1 < k2 && multiplier > 0.0
    ensures SurvivalScore(k1, multiplier, lives) < SurvivalScore(k2, multiplier, lives)
  {
    assert k2 as real * 25.0 * multiplier - k1 as real * 25.0 * multiplier
        == (k2 - k1) as real * 25.0 * multiplier;
  }

  /** A cell with a legal height scores at least 25 while lives are at most 100, far above a death trap. */
  lemma SurvivalScoreLive(k: nat, multiplier: real, lives: int)
    requires k >= 1 && multiplier >= 1.0 && lives <= 100
    ensures SurvivalScore(k, multiplier, lives) >= 25.0
  {
    assert k as real * 25.0 * multiplier >= 25.0 * multiplier;
  }

  /**
   The chosen cell is the safest one: it has a legal height, no empty cell
   has more, and every empty cell before it has fewer.
   */
  lemma SurvivalPicksSafest(g: Grid, lives: int, row: Index, col: Index)
    requires FirstBestCell(g, SurvivalScores(g, lives), row, col) && AnyLegalMove(g) && lives <= 100
    ensures LegalCount(g, row, col) >= 1
    ensures forall r: Index, c: Index :: g[r][c] == 0 ==> LegalCount(g, r, c) <= LegalCount(g, row, col)
    ensures forall r: Index, c: Index :: g[r][c] == 0 && Before(r, c, row, col) ==>
      LegalCount(g, r, c) < LegalCount(g, row, col)
  {
    var score, m := SurvivalScores(g, lives), EmergencyMultiplier(lives);
    var k := LegalCount(g, row, col);
    var r0: Index, c0: Index, v0 :| IsLegalMove(g, r0, c0, v0);
    LegalCountRange(g, r0, c0);
    SurvivalScoreLive(LegalCount(g, r0, c0), m, lives);
    assert score(r0, c0) <= score(row, col);
    forall r: Index, c: Index | g[r][c] == 0
      ensures LegalCount(g, r, c) <= k
      ensures Before(r, c, row, col) ==> LegalCount(g, r, c) < k
    {
      assert score(r, c) <= score(row, col);
      if k < LegalCount(g, r, c) {
        SurvivalScoreIncreasing(k, LegalCount(g, r, c), m, lives);
      }
      if Before(r, c, row, col) {
        assert score(r, c) < score(row, col);
      }
    }
  }

  /** The chosen cell has no legal height exactly when the board is deadlocked. */
  lemma SurvivalDeadCellMeansDeadlock(g: Grid, lives: int, row: Index, col: Index)
    requires FirstBestCell(g, SurvivalScores(g, lives), row, col) && lives <= 100
    ensures LegalCount(g, row, col) == 0 <==> !AnyLegalMove(g)
  {
    LegalCountRange(g, row, col);
    if LegalCount(g, row, col) > 0 {
      var v :| IsHeight(v) && !Conflict(g, row, col, v);
      assert IsLegalMove(g, row, col, v);
    }
    if AnyLegalMove(g) {
      SurvivalPicksSafest(g, lives, row, col);
    }
  }

  class StrategyLives {
    const state: GameState

    constructor (state: GameState)
      ensures this.state == state
    {
      this.state := state;
    }

    /** Scores one empty cell and records the breakdown of its score. */
    method EvaluateSurvival(row: Index, col: Index, multiplier: real, status: EmergencyStatus)
      returns (eval: CellEvaluation)
      requires state.Shaped()
      ensures eval.row == row && eval.col == col
      ensures
        var k := LegalCount(state.Board(), row, col);
        && eval.score == SurvivalScore(k, multiplier, state.cpuLives)
        && eval.explanation == SurvivalRationale(status, row, col, state.cpuLives, k, multiplier)
    {
      var legalCount := CountLegalValues(state.grid, row, col);
      if legalCount == 0 {
        return CellEvaluation(row, col, -1000.0, DeathTrap(row, col));
      }
      var baseSafety := legalCount as real * 25.0;
      var livesFactor := (100.0 - state.cpuLives as real) / 20.0;
      var finalScore := baseSafety * multiplier + livesFactor;
      var explanation := Survival(status, row, col, state.cpuLives, legalCount, baseSafety, multiplier, livesFactor, finalScore);
      return CellEvaluation(row, col, finalScore, explanation);
    }

    /** The heat-map value of a cell: 0 for a filled cell, otherwise its score, -1000 included. */
    method EvaluateCell(row: Index, col: Index) returns (heat: real)
      requires state.Shaped()
      ensures state.Board()[row][col] != 0 ==> heat == 0.0
      ensures state.Board()[row][col] == 0 ==>
        heat == SurvivalScore(LegalCount(state.Board(), row, col), EmergencyMultiplier(state.cpuLives), state.cpuLives)
    {
      if state.grid[row, col] != 0 {
        return 0.0;
      }
      var eval := EvaluateSurvival(row, col, EmergencyMultiplier(state.cpuLives), Safe);
      return eval.score;
    }

    /** Whether the running best of the scan is right once every cell before (`r`, `c`) is visited. */
    ghost predicate Running(multiplier: real, status: EmergencyStatus, found: bool, bestRow: Index, bestCol: Index, bestScore: real, bestExplanation: Rationale, r: int, c: int)
      requires state.Shaped()
      reads state, state.grid
    {
      var g := state.Board();
      && (found ==> BestBefore(g, SurvivalScores(g, state.cpuLives), bestRow, bestCol, r, c))
      && (found ==> bestScore == SurvivalScores(g, state.cpuLives)(bestRow, bestCol))
      && (found ==> bestExplanation == SurvivalRationale(status, bestRow, bestCol, state.cpuLives, LegalCount(g, bestRow, bestCol), multiplier))
      && (!found ==> NoEmptyBefore(g, r, c))
    }

    /** One step of the scan: visits (`r`, `c`), keeping the running best. */
    method VisitCell(multiplier: real, status: EmergencyStatus, r: Index, c: Index, found0: bool, bestRow0: Index, bestCol0: Index, bestScore0: real, bestExplanation0: Rationale)
      returns (found: bool, bestRow: Index, bestCol: Index, bestScore: real, bestExplanation: Rationale)
      requires state.Shaped() && multiplier == EmergencyMultiplier(state.cpuLives)
      requires Running(multiplier, status, found0, bestRow0, bestCol0, bestScore0, bestExplanation0, r, c)
      ensures Running(multiplier, status, found, bestRow, bestCol, bestScore, bestExplanation, r, c + 1)
    {
      ghost var g := state.Board();
      ghost var score := SurvivalScores(g, state.cpuLives);
      found, bestRow, bestCol, bestScore, bestExplanation := found0, bestRow0, bestCol0, bestScore0, bestExplanation0;
      if state.grid[r, c] == 0 {
        var eval := EvaluateSurvival(r, c, multiplier, status);
        if !found {
          BestBeforeFirst(g, score, r, c);
        } else if eval.score > bestScore {
          BestBeforeReplace(g, score, bestRow, bestCol, r, c);
        } else {
          BestBeforeKeep(g, score, bestRow, bestCol, r, c);
        }
        if !found || eval.score > bestScore {
          found := true;
          bestScore, bestRow, bestCol := eval.score, r, c;
          bestExplanation := eval.explanation;
        }
      } else if found {
        BestBeforeKeep(g, score, bestRow, bestCol, r, c);
      } else {
        NoEmptyBeforeStep(g, r, c);
      }
    }

    /**
     Scans the empty cells in row-major order, keeping the first one with the
     highest score; reports whether there was an empty cell at all.
     */
    method ScanEmptyCells(multiplier: real, status: EmergencyStatus)
      returns (found: bool, bestRow: Index, bestCol: Index, bestExplanation: Rationale)
      requires state.Shaped() && multiplier == EmergencyMultiplier(state.cpuLives)
      ensures found ==> FirstBestCell(state.Board(), SurvivalScores(state.Board(), state.cpuLives), bestRow, bestCol)
      ensures found ==>
        var k := LegalCount(state.Board(), bestRow, bestCol);
        bestExplanation == SurvivalRationale(status, bestRow, bestCol, state.cpuLives, k, multiplier)
      ensures !found ==> forall r: Index, c: Index :: state.Board()[r][c] != 0
    {
      ghost var g := state.Board();
      ghost var score := SurvivalScores(g, state.cpuLives);
      found := false;
      var bestScore := 0.0;
      bestRow, bestCol, bestExplanation := 0, 0, NoRationale;
      for r := 0 to N
        invariant Running(multiplier, status, found, bestRow, bestCol, bestScore, bestExplanation, r, 0)
      {
        for c := 0 to N
          invariant Running(multiplier, status, found, bestRow, bestCol, bestScore, bestExplanation, r, c)
        {
          found, bestRow, bestCol, bestScore, bestExplanation :=
            VisitCell(multiplier, status, r, c, found, bestRow, bestCol, bestScore, bestExplanation);
        }
        EndOfRow(g, score, bestRow, bestCol, r);
      }
      EndOfScan(g, score, bestRow, bestCol);
    }

    /**
     Picks the first empty cell with the highest survival score, judged by
     the computer's own lives, and places the smallest legal height there;
     reports no move exactly when the board is deadlocked.
     */
    method FindBestMove() returns (move: Option<Move>)
      requires state.Valid()
      modifies state`cpuReasoningExplanation
      ensures state.Valid()
      ensures move.None? <==> !AnyLegalMove(state.Board())
      ensures move.Some? ==>
        var m, g, lives := move.value, state.Board(), state.cpuLives;
        var k := LegalCount(g, m.row, m.col);
        var multiplier := EmergencyMultiplier(lives);
        && FirstBestCell(g, SurvivalScores(g, lives), m.row, m.col)
        && IsSmallestLegal(g, m.row, m.col, m.value)
        && state.cpuReasoningExplanation ==
           Survival(EmergencyStatusOf(lives), m.row, m.col, lives, k, k as real * 25.0, multiplier,
                    (100.0 - lives as real) / 20.0, SurvivalScore(k, multiplier, lives))
      ensures move.None? ==> state.cpuReasoningExplanation == old(state.cpuReasoningExplanation)
    {
      var cpuLives := state.cpuLives;
      var emergencyMultiplier := EmergencyMultiplier(cpuLives);
      var status := EmergencyStatusOf(cpuLives);
      var found, bestRow, bestCol, bestExplanation := ScanEmptyCells(emergencyMultiplier, status);
      if !found {
        return None;
      }
      SurvivalDeadCellMeansDeadlock(state.Board(), cpuLives, bestRow, bestCol);
      var bestValue := FirstLegalValue(state.grid, bestRow, bestCol);
      if bestValue == -1 {
        return None;
      }
      state.cpuReasoningExplanation := bestExplanation;
      return Some(Move(bestRow, bestCol, bestValue));
    }
  }
}
