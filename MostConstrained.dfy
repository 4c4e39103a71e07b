/**
 The most-constrained-cell computer player: among the empty cells it picks
 the one with the fewest legal heights (the minimum-remaining-values rule),
 scoring a cell with k legal heights 1000/(k+1), or -1000 when it has none,
 and places the smallest legal height there.
 */
module MostConstrained {
  import opened Rules
  import opened GameCore

  /** The score of a cell with `k` legal heights. */
  function MrvScore(k: nat): real {
    if k == 0 then -1000.0 else 1000.0 / (k + 1) as real
  }

  /** The score of every cell of `g`. */
  ghost function MrvScores(g: Grid): (Index, Index) -> real {
    (r: Index, c: Index) => MrvScore(LegalCount(g, r, c))
  }

  /** Fewer legal heights score strictly higher. */
  lemma MrvScoreDecreasing(k1: nat, k2: nat)
    requires 1 <= k1 < k2
    ensures MrvScore(k1) > MrvScore(k2)
  {
    var x, y := (k1 + 1) as real, (k2 + 1) as real;
    assert 1000.0 / x * x == 1000.0 && 1000.0 / y * y == 1000.0;
    assert 1000.0 / x * y > 1000.0 / x * x;
  }

  /** A cell with a legal height scores in (0, 500]; a dead cell scores -1000. */
  lemma MrvScoreSign(k: nat)
    ensures k == 0 ==> MrvScore(k) == -1000.0
    ensures k >= 1 ==> 0.0 < MrvScore(k) <= 500.0
  {
    if k >= 1 {
      var x := (k + 1) as real;
      assert 1000.0 / x * x == 1000.0;
    }
  }

  /**
   The chosen cell is the most constrained one: it has a legal height, no
   live empty cell has fewer, and every live empty cell before it has more.
   */
  lemma MrvPicksMostConstrained(g: Grid, row: Index, col: Index)
    requires FirstBestCell(g, MrvScores(g), row, col) && AnyLegalMove(g)
    ensures LegalCount(g, row, col) >= 1
    ensures forall r: Index, c: Index :: g[r][c] == 0 && LegalCount(g, r, c) >= 1 ==>
      LegalCount(g, row, col) <= LegalCount(g, r, c)
    ensures forall r: Index, c: Index :: g[r][c] == 0 && LegalCount(g, r, c) >= 1 && Before(r, c, row, col) ==>
      LegalCount(g, row, col) < LegalCount(g, r, c)
  {
    var score := MrvScores(g);
    var k := LegalCount(g, row, col);
    var r0: Index, c0: Index, v0 :| IsLegalMove(g, r0, c0, v0);
    LegalCountRange(g, r0, c0);
    MrvScoreSign(LegalCount(g, r0, c0));
    MrvScoreSign(k);
    assert score(r0, c0) <= score(row, col);
    forall r: Index, c: Index | g[r][c] == 0 && LegalCount(g, r, c) >= 1
      ensures k <= LegalCount(g, r, c)
      ensures Before(r, c, row, col) ==> k < LegalCount(g, r, c)
    {
      assert score(r, c) <= score(row, col);
      if LegalCount(g, r, c) < k {
        MrvScoreDecreasing(LegalCount(g, r, c), k);
      }
      if Before(r, c, row, col) {
        assert score(r, c) < score(row, col);
      }
    }
  }

  /** The chosen cell has no legal height exactly when the board is deadlocked. */
  lemma MrvDeadCellMeansDeadlock(g: Grid, row: Index, col: Index)
    requires FirstBestCell(g, MrvScores(g), row, col)
    ensures LegalCount(g, row, col) == 0 <==> !AnyLegalMove(g)
  {
    LegalCountRange(g, row, col);
    if LegalCount(g, row, col) > 0 {
      var v :| IsHeight(v) && !Conflict(g, row, col, v);
      assert IsLegalMove(g, row, col, v);
    }
    if AnyLegalMove(g) {
      MrvPicksMostConstrained(g, row, col);
    }
  }

  /** Heights 1..k-1 missing from `used`. */
  ghost function Unused(used: set<int>, k: int): set<int> {
    set w | 1 <= w < k && w !in used
  }

  lemma UnusedStep(used: set<int>, k: int)
    requires 1 <= k
    ensures |Unused(used, k + 1)| == |Unused(used, k)| + (if k in used then 0 else 1)
  {
    var small, large := Unused(used, k), Unused(used, k + 1);
    assert large == small + (if k in used then {} else {k});
    assert k !in small;
  }

  class StrategyMRV {
    const state: GameState

    constructor (state: GameState)
      ensures this.state == state
    {
      this.state := state;
    }

    /**
     Legal heights of (`row`, `col`) counted the constraint-solver way: the
     heights 1..N not already standing in its row or column.
     */
    method CountLegalValues(row: Index, col: Index) returns (count: nat)
      requires state.Shaped()
      ensures count == |{1, 2, 3, 4} - UsedValues(state.Board(), row, col)|
      ensures InRange(state.Board()) && state.Board()[row][col] == 0 ==>
        count == LegalCount(state.Board(), row, col)
    {
      ghost var g := state.Board();
      var used: set<int> := {};
      for c := 0 to N
        invariant used == set v | v in g[row][..c] && v != 0
      {
        assert g[row][..c + 1] == g[row][..c] + [g[row][c]];
        if state.grid[row, c] != 0 {
          used := used + {state.grid[row, c]};
        }
      }
      assert g[row][..N] == g[row];
      ghost var line := Column(g, col);
      for r := 0 to N
        invariant used == set v | v in g[row] + line[..r] && v != 0
      {
        assert g[row] + line[..r + 1] == (g[row] + line[..r]) + [line[r]];
        if state.grid[r, col] != 0 {
          used := used + {state.grid[r, col]};
        }
      }
      assert line[..N] == line;
      assert used == UsedValues(g, row, col);
      count := 0;
      assert Unused(used, 1) == {};
      for v := 1 to N + 1
        invariant count == |Unused(used, v)|
      {
        UnusedStep(used, v);
        if v !in used {
          count := count + 1;
        }
      }
      assert Unused(used, N + 1) == {1, 2, 3, 4} - used;
      if InRange(g) && g[row][col] == 0 {
        LegalIsUnused(g, row, col);
      }
    }

    /** Scores one empty cell and records the breakdown of its score. */
    method EvaluateMRVGreedy(row: Index, col: Index) returns (eval: CellEvaluation)
      requires state.Valid()
      ensures eval.row == row && eval.col == col
      ensures state.Board()[row][col] == 0 ==>
        var k := LegalCount(state.Board(), row, col);
        eval.score == MrvScore(k) && eval.explanation == MostConstrained(row, col, k, eval.score)
    {
      var legalValuesCount := CountLegalValues(row, col);
      var score := MrvScore(legalValuesCount);
      assert InRange(state.Board());
      return CellEvaluation(row, col, score, MostConstrained(row, col, legalValuesCount, score));
    }

    /** The heat-map value of a cell: its score if positive, else 0; 0 for a filled cell. */
    method EvaluateCell(row: Index, col: Index) returns (heat: real)
      requires state.Valid()
      ensures heat >= 0.0
      ensures state.Board()[row][col] != 0 ==> heat == 0.0
      ensures state.Board()[row][col] == 0 ==>
        var k := LegalCount(state.Board(), row, col);
        (heat > 0.0 <==> k >= 1) && (k >= 1 ==> heat == MrvScore(k))
    {
      if state.grid[row, col] != 0 {
        return 0.0;
      }
      var eval := EvaluateMRVGreedy(row, col);
      MrvScoreSign(LegalCount(state.Board(), row, col));
      heat := if eval.score > 0.0 then eval.score else 0.0;
    }

    /** Whether the running best of the scan is right once every cell before (`r`, `c`) is visited. */
    ghost predicate Running(found: bool, bestRow: Index, bestCol: Index, bestScore: real, bestExplanation: Rationale, r: int, c: int)
      requires state.Shaped()
      reads state, state.grid
    {
      var g := state.Board();
      && (found ==> BestBefore(g, MrvScores(g), bestRow, bestCol, r, c))
      && (found ==> bestScore == MrvScores(g)(bestRow, bestCol))
      && (found ==> bestExplanation == MostConstrained(bestRow, bestCol, LegalCount(g, bestRow, bestCol), bestScore))
      && (!found ==> NoEmptyBefore(g, r, c))
    }

    /** One step of the scan: visits (`r`, `c`), keeping the running best. */
    method VisitCell(r: Index, c: Index, found0: bool, bestRow0: Index, bestCol0: Index, bestScore0: real, bestExplanation0: Rationale)
      returns (found: bool, bestRow: Index, bestCol: Index, bestScore: real, bestExplanation: Rationale)
      requires state.Valid()
      requires Running(found0, bestRow0, bestCol0, bestScore0, bestExplanation0, r, c)
      ensures Running(found, bestRow, bestCol, bestScore, bestExplanation, r, c + 1)
    {
      ghost var g := state.Board();
      ghost var score := MrvScores(g);
      found, bestRow, bestCol, bestScore, bestExplanation := found0, bestRow0, bestCol0, bestScore0, bestExplanation0;
      if state.grid[r, c] == 0 {
        var eval := EvaluateMRVGreedy(r, c);
        if !found {
          BestBeforeFirst(g, score, r, c);
        } else if eval.score > bestScore {
          BestBeforeReplace(g, score, bestRow, bestCol, r, c);
        } else {
          BestBeforeKeep(g, score, bestRow, bestCol, r, c);
        }
        if !found || eval.score > bestScore {
          found := true;
          bestScore, bestRow, bestCol := eval.score, r, c;
          bestExplanation := eval.explanation;
        }
      } else if found {
        BestBeforeKeep(g, score, bestRow, bestCol, r, c);
      } else {
        NoEmptyBeforeStep(g, r, c);
      }
    }

    /**
     Scans the empty cells in row-major order, keeping the first one with the
     highest score; reports whether there was an empty cell at all.
     */
    method ScanEmptyCells() returns (found: bool, bestRow: Index, bestCol: Index, bestExplanation: Rationale)
      requires state.Valid()
      ensures found ==> FirstBestCell(state.Board(), MrvScores(state.Board()), bestRow, bestCol)
      ensures found ==>
        var k := LegalCount(state.Board(), bestRow, bestCol);
        bestExplanation == MostConstrained(bestRow, bestCol, k, MrvScore(k))
      ensures !found ==> forall r: Index, c: Index :: state.Board()[r][c] != 0
    {
      ghost var g := state.Board();
      ghost var score := MrvScores(g);
      found := false;
      var bestScore := 0.0;
      bestRow, bestCol, bestExplanation := 0, 0, NoRationale;
      for r := 0 to N
        invariant Running(found, bestRow, bestCol, bestScore, bestExplanation, r, 0)
      {
        for c := 0 to N
          invariant Running(found, bestRow, bestCol, bestScore, bestExplanation, r, c)
        {
          found, bestRow, bestCol, bestScore, bestExplanation :=
            VisitCell(r, c, found, bestRow, bestCol, bestScore, bestExplanation);
        }
        EndOfRow(g, score, bestRow, bestCol, r);
      }
      EndOfScan(g, score, bestRow, bestCol);
    }

    /**
     Picks the first empty cell with the highest score and places the
     smallest legal height there; reports no move when no empty cell is left
     or the chosen cell has no legal height, which happens exactly when the
     board is deadlocked.
     */
    method FindBestMove() returns (move: Option<Move>)
      requires state.Valid()
      modifies state`cpuReasoningExplanation
      ensures state.Valid()
      ensures move.None? <==> !AnyLegalMove(state.Board())
      ensures move.Some? ==>
        var m, g := move.value, state.Board();
        && FirstBestCell(g, MrvScores(g), m.row, m.col)
        && IsSmallestLegal(g, m.row, m.col, m.value)
        && state.cpuReasoningExplanation ==
           MostConstrained(m.row, m.col, LegalCount(g, m.row, m.col), MrvScore(LegalCount(g, m.row, m.col)))
      ensures move.None? ==> state.cpuReasoningExplanation == old(state.cpuReasoningExplanation)
    {
      var found, bestRow, bestCol, bestExplanation := ScanEmptyCells();
      if !found {
        return None;
      }
      MrvDeadCellMeansDeadlock(state.Board(), bestRow, bestCol);
      var bestValue := FirstLegalValue(state.grid, bestRow, bestCol);
      if bestValue == -1 {
        return None;
      }
      state.cpuReasoningExplanation := bestExplanation;
      return Some(Move(bestRow, bestCol, bestValue));
    }
  }
}
