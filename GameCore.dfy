/**
 The game engine: the constraint-graph conflict test, and the game state
 with its move and penalty state machine, completion and visibility checks,
 deadlock test and winner resolution.
 */
module GameCore {
  import opened Rules

  /** The cells of a 4×4 array as a board value. */
  ghost function Cells(a: array2<int>): (g: Grid)
    requires a.Length0 == N && a.Length1 == N
    reads a
    ensures forall r: Index, c: Index :: g[r][c] == a[r, c]
  {
    seq(N, r requires 0 <= r < N reads a => seq(N, c requires 0 <= c < N reads a => a[r, c]))
  }

  /**
   The constraint-graph test: does `value` stand on a neighbour of
   (`row`, `col`), that is, on another cell of its row or column? The
   neighbours are visited in row-major order, the order in which the
   cell's incident edges are built; the first hit ends the search.
   */
  method HasConflict(grid: array2<int>, row: Index, col: Index, value: int) returns (conflict: bool)
    requires grid.Length0 == N && grid.Length1 == N
    ensures conflict == Conflict(Cells(grid), row, col, value)
  {
    ghost var g := Cells(grid);
    for r := 0 to N
      invariant forall r': Index, c': Index ::
        r' < r && (r' != row || c' != col) && (r' == row || c' == col) ==> g[r'][c'] != value
    {
      for c := 0 to N
        invariant forall r': Index, c': Index ::
          Before(r', c', r, c) && (r' != row || c' != col) && (r' == row || c' == col) ==> g[r'][c'] != value
      {
        if (r != row || c != col) && (r == row || c == col) && grid[r, c] == value {
          assert g[r][c] == value;
          return true;
        }
      }
    }
    return false;
  }

  /**
   The smallest height that does not conflict at (`row`, `col`), trying
   heights in ascending order, or -1 when every height conflicts. The
   computer players share this search.
   */
  method FirstLegalValue(grid: array2<int>, row: Index, col: Index) returns (v: int)
    requires grid.Length0 == N && grid.Length1 == N
    ensures v == -1 || IsSmallestLegal(Cells(grid), row, col, v)
    ensures v == -1 <==> LegalCount(Cells(grid), row, col) == 0
  {
    ghost var g := Cells(grid);
    LegalCountRange(g, row, col);
    for w := 1 to N + 1
      invariant forall u :: 1 <= u < w ==> Conflict(g, row, col, u)
    {
      var conflict := HasConflict(grid, row, col, w);
      if !conflict {
        return w;
      }
    }
    return -1;
  }

  /** The number of heights that do not conflict at (`row`, `col`), one conflict test per height. */
  method CountLegalValues(grid: array2<int>, row: Index, col: Index) returns (count: nat)
    requires grid.Length0 == N && grid.Length1 == N
    ensures count == LegalCount(Cells(grid), row, col)
  {
    ghost var g := Cells(grid);
    count := 0;
    assert LegalBelow(g, row, col, 1) == {};
    for v := 1 to N + 1
      invariant count == |LegalBelow(g, row, col, v)|
    {
      LegalBelowStep(g, row, col, v);
      var conflict := HasConflict(grid, row, col, v);
      if !conflict {
        count := count + 1;
      }
    }
  }

  /** Why a player lost lives. */
  datatype PenaltyReason =
    | ConstraintViolation
    | RowVisibilityViolation
    | ColumnVisibilityViolation
    | Deadlock

  /** The outcome of the last move, as the status line reports it. */
  datatype Status =
    | NoStatus
    | CellAlreadyFilled
    | Penalized(actor: Actor, reason: PenaltyReason, amount: int)
    | MoveAccepted(actor: Actor, gain: int)

  /** How urgently the survival player guards its lives, from its remaining lives. */
  datatype EmergencyStatus = Critical | Emergency | Warning | Alert | Safe

  /** The numeric breakdown behind a computer player's choice of cell. */
  datatype Rationale =
    | NoRationale
    | MostConstrained(row: int, col: int, legalCount: int, score: real)
    | Gamble(row: int, col: int, value: int, legalCount: int, rowComplete: bool, colComplete: bool, score: real)
    | Survival(status: EmergencyStatus, row: int, col: int, lives: int, legalCount: int, baseSafety: real, multiplier: real, livesFactor: real, score: real)
    | DeathTrap(row: int, col: int)
    | Completion(row: int, col: int, emptyRow: int, rowPriority: real, emptyCol: int, colPriority: real, bonus: real, score: real)

  /** A scored cell, shared by the computer players. */
  datatype CellEvaluation = CellEvaluation(row: int, col: int, score: real, explanation: Rationale)

  /** What the game reports once it is decided. */
  datatype Verdict = DoubleKnockout | HumanWins | CpuWins | Draw

  /** Lives after a penalty: never below zero. */
  function Clamp(x: int): nat {
    if x < 0 then 0 else x
  }

  /** Points for a line a placement completes: 10, plus 15 if it matches its clues. */
  function LineGain(complete: bool, matches: bool): int {
    if complete then 10 + (if matches then 15 else 0) else 0
  }

  /** Lives lost for a line a placement completes against its clues. */
  function LinePenalty(complete: bool, matches: bool): int {
    if complete && !matches then 15 else 0
  }

  /** The tie-break total of a finished game: score plus a tenth of the lives left. */
  function FinalTotal(score: int, lives: int): int
    requires lives >= 0
  {
    score + lives / 10
  }

  class GameState {
    const grid: array2<int>
    var humanScore: int
    var cpuScore: int
    var humanLives: int
    var cpuLives: int
    var isHumanTurn: bool
    const topClues: Clues
    const rightClues: Clues
    const bottomClues: Clues
    const leftClues: Clues
    var statusMessage: Status
    var cpuReasoningExplanation: Rationale

    /** The board array is 4×4. */
    predicate Shaped() {
      grid.Length0 == N && grid.Length1 == N
    }

    /** The state invariant: a 4×4 board of 0..N, lives in [0, 100], scores non-negative. */
    ghost predicate Valid()
      reads this, grid
    {
      Shaped() && InRange(Cells(grid)) &&
      0 <= humanLives <= 100 && 0 <= cpuLives <= 100 &&
      humanScore >= 0 && cpuScore >= 0
    }

    ghost function Board(): Grid
      requires Shaped()
      reads grid
    {
      Cells(grid)
    }

    function Lives(a: Actor): int
      reads this
    {
      if a == Human then humanLives else cpuLives
    }

    function Score(a: Actor): int
      reads this
    {
      if a == Human then humanScore else cpuScore
    }

    /** Row `row` of `g` shows from the left and from the right what its clues say. */
    ghost predicate RowMatches(g: Grid, row: Index) {
      LineMatchesClues(g[row], leftClues[row], rightClues[row])
    }

    /** Column `col` of `g` shows from the top and from the bottom what its clues say. */
    ghost predicate ColumnMatches(g: Grid, col: Index) {
      LineMatchesClues(Column(g, col), topClues[col], bottomClues[col])
    }

    /** Points a placement at (`row`, `col`) that left the board as `g` earns. */
    ghost function MoveGain(g: Grid, row: Index, col: Index): int {
      1 + LineGain(RowComplete(g, row), RowMatches(g, row))
        + LineGain(ColumnComplete(g, col), ColumnMatches(g, col))
    }

    /** Lives a placement at (`row`, `col`) that left the board as `g` costs its maker. */
    ghost function MovePenalty(g: Grid, row: Index, col: Index): int {
      LinePenalty(RowComplete(g, row), RowMatches(g, row))
        + LinePenalty(ColumnComplete(g, col), ColumnMatches(g, col))
        + (if AnyLegalMove(g) then 0 else 5)
    }

    /**
     The status line scoring a placement leaves behind: the last penalty it
     applied (deadlock after the column, the column after the row), or the
     `prior` line when it applied none.
     */
    ghost function PlacementStatus(g: Grid, row: Index, col: Index, actor: Actor, prior: Status): Status {
      if !AnyLegalMove(g) then Penalized(actor, Deadlock, 5)
      else if ColumnComplete(g, col) && !ColumnMatches(g, col) then Penalized(actor, ColumnVisibilityViolation, 15)
      else if RowComplete(g, row) && !RowMatches(g, row) then Penalized(actor, RowVisibilityViolation, 15)
      else prior
    }

    /** Either player is out of lives, the board is full, or no legal move is left. */
    ghost predicate GameOver()
      requires Valid()
      reads this, grid
    {
      humanLives <= 0 || cpuLives <= 0 || BoardFull(Board()) || !AnyLegalMove(Board())
    }

    constructor (top: seq<int>, right: seq<int>, bottom: seq<int>, left: seq<int>)
      requires |top| >= N && |right| >= N && |bottom| >= N && |left| >= N
      ensures Valid() && fresh(grid)
      ensures Board() == EmptyGrid()
      ensures humanScore == 0 && cpuScore == 0
      ensures humanLives == 100 && cpuLives == 100
      ensures isHumanTurn
      ensures topClues == top[..N] && rightClues == right[..N]
      ensures bottomClues == bottom[..N] && leftClues == left[..N]
      ensures statusMessage == NoStatus && cpuReasoningExplanation == NoRationale
    {
      grid := new int[N, N]((r, c) => 0);
      topClues, rightClues := top[..N], right[..N];
      bottomClues, leftClues := bottom[..N], left[..N];
      humanScore, cpuScore := 0, 0;
      humanLives, cpuLives := 100, 100;
      isHumanTurn := true;
      statusMessage, cpuReasoningExplanation := NoStatus, NoRationale;
      new;
      GridsEqual(Cells(grid), EmptyGrid());
    }

    /** Takes `amount` lives from `actor`, never below zero, and reports why. */
    method ApplyPenalty(actor: Actor, amount: nat, reason: PenaltyReason)
      modifies this`humanLives, this`cpuLives, this`statusMessage
      ensures Lives(actor) == Clamp(old(Lives(actor)) - amount)
      ensures Lives(actor.Other()) == old(Lives(actor.Other()))
      ensures statusMessage == Penalized(actor, reason, amount)
    {
      if actor == Human {
        humanLives := if humanLives - amount < 0 then 0 else humanLives - amount;
      } else {
        cpuLives := if cpuLives - amount < 0 then 0 else cpuLives - amount;
      }
      statusMessage := Penalized(actor, reason, amount);
    }

    /**
     The move state machine. A filled cell is refused and nothing changes;
     a conflicting height is refused and costs the mover 10 lives; otherwise
     the height is placed and the mover earns 1 point, plus 10 for each line
     it completes and 15 more if that line matches its clues (or loses 15
     lives if it does not), and loses 5 lives if the board is then deadlocked.
     */
    method MakeMove(row: Index, col: Index, value: int, actor: Actor) returns (accepted: bool)
      requires Valid() && IsHeight(value)
      modifies this, grid
      ensures Valid()
      ensures accepted <==> IsLegalMove(old(Board()), row, col, value)
      ensures Lives(actor.Other()) == old(Lives(actor.Other()))
      ensures Score(actor.Other()) == old(Score(actor.Other()))
      ensures isHumanTurn == old(isHumanTurn)
      ensures cpuReasoningExplanation == old(cpuReasoningExplanation)
      ensures old(grid[row, col]) != 0 ==>
        && Board() == old(Board())
        && Score(actor) == old(Score(actor)) && Lives(actor) == old(Lives(actor))
        && statusMessage == CellAlreadyFilled
      ensures old(grid[row, col]) == 0 && Conflict(old(Board()), row, col, value) ==>
        && Board() == old(Board())
        && Score(actor) == old(Score(actor))
        && Lives(actor) == Clamp(old(Lives(actor)) - 10)
        && statusMessage == Penalized(actor, ConstraintViolation, 10)
      ensures accepted ==>
        && Board() == Place(old(Board()), row, col, value)
        && Score(actor) == old(Score(actor)) + MoveGain(Board(), row, col)
        && Lives(actor) == Clamp(old(Lives(actor)) - MovePenalty(Board(), row, col))
        && statusMessage == MoveAccepted(actor, MoveGain(Board(), row, col))
      ensures Latin(old(Board())) ==> Latin(Board())
      ensures Score(actor) >= old(Score(actor)) && Lives(actor) <= old(Lives(actor))
    {
      ghost var before := Board();
      if grid[row, col] != 0 {
        statusMessage := CellAlreadyFilled;
        return false;
      }
      var conflict := HasConflict(grid, row, col, value);
      if conflict {
        ApplyPenalty(actor, 10, ConstraintViolation);
        return false;
      }
      PlaceHeight(row, col, value, actor);
      return true;
    }

    /** The accepted branch of a move: writes the height at (`row`, `col`) and scores it. */
    method PlaceHeight(row: Index, col: Index, value: int, actor: Actor)
      requires Valid() && IsHeight(value) && IsLegalMove(Board(), row, col, value)
      modifies this`humanScore, this`cpuScore, this`humanLives, this`cpuLives, this`statusMessage, grid
      ensures Valid()
      ensures Board() == Place(old(Board()), row, col, value)
      ensures Score(actor) == old(Score(actor)) + MoveGain(Board(), row, col)
      ensures Lives(actor) == Clamp(old(Lives(actor)) - MovePenalty(Board(), row, col))
      ensures Score(actor.Other()) == old(Score(actor.Other()))
      ensures Lives(actor.Other()) == old(Lives(actor.Other()))
      ensures statusMessage == MoveAccepted(actor, MoveGain(Board(), row, col))
      ensures Latin(old(Board())) ==> Latin(Board())
    {
      ghost var before := Board();
      grid[row, col] := value;
      GridsEqual(Board(), Place(before, row, col, value));
      if Latin(before) {
        PlacePreservesLatin(before, row, col, value);
      }
      var scoreGain := ScorePlacement(row, col, actor);
      statusMessage := MoveAccepted(actor, scoreGain);
    }

    /**
     Scores a placement already written at (`row`, `col`): 1 point, 10 for
     each line it completes and 15 more for a completed line that matches its
     clues, 15 lives lost for a completed line that does not, and 5 lives
     lost if no legal move is left. Only the mover's score and lives and the
     status line change.
     */
    method ScorePlacement(row: Index, col: Index, actor: Actor) returns (scoreGain: int)
      requires Shaped() && Lives(actor) >= 0
      modifies this`humanScore, this`cpuScore, this`humanLives, this`cpuLives, this`statusMessage
      ensures scoreGain == MoveGain(Board(), row, col)
      ensures Score(actor) == old(Score(actor)) + scoreGain
      ensures Lives(actor) == Clamp(old(Lives(actor)) - MovePenalty(Board(), row, col))
      ensures Score(actor.Other()) == old(Score(actor.Other()))
      ensures Lives(actor.Other()) == old(Lives(actor.Other()))
      ensures statusMessage == PlacementStatus(Board(), row, col, actor, old(statusMessage))
    {
      var rowGain := ScoreRow(row, actor);
      var colGain := ScoreColumn(col, actor);
      scoreGain := 1 + rowGain + colGain;

      if actor == Human {
        humanScore := humanScore + scoreGain;
      } else {
        cpuScore := cpuScore + scoreGain;
      }

      var anyMoves := HasAnyValidMoves();
      if !anyMoves {
        ApplyPenalty(actor, 5, Deadlock);
      }
    }

    /** The row part of scoring a placement: points and lives for completing row `row`. */
    method ScoreRow(row: Index, actor: Actor) returns (gain: int)
      requires Shaped() && Lives(actor) >= 0
      modifies this`humanLives, this`cpuLives, this`statusMessage
      ensures gain == LineGain(RowComplete(Board(), row), RowMatches(Board(), row))
      ensures Lives(actor) == Clamp(old(Lives(actor)) - LinePenalty(RowComplete(Board(), row), RowMatches(Board(), row)))
      ensures Lives(actor.Other()) == old(Lives(actor.Other()))
      ensures statusMessage ==
        if RowComplete(Board(), row) && !RowMatches(Board(), row) then Penalized(actor, RowVisibilityViolation, 15)
        else old(statusMessage)
    {
      gain := 0;
      var complete := IsRowComplete(row);
      if complete {
        gain := 10;
        var ok := ValidateRowVisibility(row);
        if ok {
          gain := gain + 15;
        } else {
          ApplyPenalty(actor, 15, RowVisibilityViolation);
        }
      }
    }

    /** The column part of scoring a placement: points and lives for completing column `col`. */
    method ScoreColumn(col: Index, actor: Actor) returns (gain: int)
      requires Shaped() && Lives(actor) >= 0
      modifies this`humanLives, this`cpuLives, this`statusMessage
      ensures gain == LineGain(ColumnComplete(Board(), col), ColumnMatches(Board(), col))
      ensures Lives(actor) == Clamp(old(Lives(actor)) - LinePenalty(ColumnComplete(Board(), col), ColumnMatches(Board(), col)))
      ensures Lives(actor.Other()) == old(Lives(actor.Other()))
      ensures statusMessage ==
        if ColumnComplete(Board(), col) && !ColumnMatches(Board(), col) then Penalized(actor, ColumnVisibilityViolation, 15)
        else old(statusMessage)
    {
      gain := 0;
      var complete := IsColumnComplete(col);
      if complete {
        gain := 10;
        var ok := ValidateColumnVisibility(col);
        if ok {
          gain := gain + 15;
        } else {
          ApplyPenalty(actor, 15, ColumnVisibilityViolation);
        }
      }
    }

    /** Does row `row` match its left and right clues? */
    method ValidateRowVisibility(row: Index) returns (ok: bool)
      requires Shaped()
      ensures ok == RowMatches(Board(), row)
    {
      // The row of the 2-D array is read into a sequence, which is what the
      // visibility count takes; this copy only bridges the two representations.
      var rowVals: seq<int> := [];
      for c := 0 to N
        invariant rowVals == Board()[row][..c]
      {
        rowVals := rowVals + [grid[row, c]];
      }
      assert rowVals == Board()[row];
      var leftCount := CountVisible(rowVals, true);
      var rightCount := CountVisible(rowVals, false);
      ok := leftCount == leftClues[row] && rightCount == rightClues[row];
    }

    /** Does column `col` match its top and bottom clues? */
    method ValidateColumnVisibility(col: Index) returns (ok: bool)
      requires Shaped()
      ensures ok == ColumnMatches(Board(), col)
    {
      var colVals: seq<int> := [];
      for r := 0 to N
        invariant colVals == Column(Board(), col)[..r]
      {
        colVals := colVals + [grid[r, col]];
      }
      assert colVals == Column(Board(), col);
      var topCount := CountVisible(colVals, true);
      var bottomCount := CountVisible(colVals, false);
      ok := topCount == topClues[col] && bottomCount == bottomClues[col];
    }

    /**
     Skyline count of `buildings`, scanning from the start (`forward`) or from
     the end, keeping the tallest tower seen so far (starting at 0).
     */
    method CountVisible(buildings: seq<int>, forward: bool) returns (visible: nat)
      ensures visible == VisibleCount(buildings, forward)
    {
      visible := 0;
      var maxH := 0;
      var start := if forward then 0 else |buildings| - 1;
      var end := if forward then |buildings| else -1;
      var step := if forward then 1 else -1;
      var i := start;
      assert buildings[..|buildings|] == buildings;
      while i != end
        invariant forward ==> 0 <= i <= |buildings|
        invariant forward ==> visible + Visible(buildings[i..], maxH) == Visible(buildings, 0)
        invariant !forward ==> -1 <= i < |buildings|
        invariant !forward ==>
          visible + Visible(Reversed(buildings[..i + 1]), maxH) == Visible(Reversed(buildings), 0)
        decreases if forward then |buildings| - i else i + 1
      {
        if forward {
          assert buildings[i..][0] == buildings[i] && buildings[i..][1..] == buildings[i + 1..];
        } else {
          var prefix := buildings[..i + 1];
          assert prefix[..i] == buildings[..i];
          assert Reversed(prefix) == [buildings[i]] + Reversed(buildings[..i]);
          assert Reversed(prefix)[1..] == Reversed(buildings[..i]);
        }
        if buildings[i] > maxH {
          visible := visible + 1;
          maxH := buildings[i];
        }
        i := i + step;
      }
      assert forward ==> buildings[i..] == [];
    }

    method IsRowComplete(row: Index) returns (complete: bool)
      requires Shaped()
      ensures complete == RowComplete(Board(), row)
    {
      for c := 0 to N
        invariant forall c': Index :: c' < c ==> Board()[row][c'] != 0
      {
        if grid[row, c] == 0 {
          return false;
        }
      }
      return true;
    }

    method IsColumnComplete(col: Index) returns (complete: bool)
      requires Shaped()
      ensures complete == ColumnComplete(Board(), col)
    {
      for r := 0 to N
        invariant forall r': Index :: r' < r ==> Board()[r'][col] != 0
      {
        if grid[r, col] == 0 {
          return false;
        }
      }
      return true;
    }

    method IsBoardFull() returns (full: bool)
      requires Shaped()
      ensures full == BoardFull(Board())
    {
      for r := 0 to N
        invariant forall r': Index, c': Index :: r' < r ==> Board()[r'][c'] != 0
      {
        for c := 0 to N
          invariant forall r': Index, c': Index :: Before(r', c', r, c) ==> Board()[r'][c'] != 0
        {
          if grid[r, c] == 0 {
            return false;
          }
        }
      }
      return true;
    }

    method CountEmptyInRow(row: Index) returns (cnt: nat)
      requires Shaped()
      ensures cnt == EmptyCount(Board()[row])
    {
      ghost var line := Board()[row];
      cnt := 0;
      for c := 0 to N
        invariant cnt == EmptyCount(line[..c])
      {
        assert line[..c + 1] == line[..c] + [line[c]];
        EmptyCountSnoc(line[..c], line[c]);
        if grid[row, c] == 0 {
          cnt := cnt + 1;
        }
      }
      assert line[..N] == line;
    }

    method CountEmptyInColumn(col: Index) returns (cnt: nat)
      requires Shaped()
      ensures cnt == EmptyCount(Column(Board(), col))
    {
      ghost var line := Column(Board(), col);
      cnt := 0;
      for r := 0 to N
        invariant cnt == EmptyCount(line[..r])
      {
        assert line[..r + 1] == line[..r] + [line[r]];
        EmptyCountSnoc(line[..r], line[r]);
        if grid[r, col] == 0 {
          cnt := cnt + 1;
        }
      }
      assert line[..N] == line;
    }

    /** Deadlock test: does some empty cell admit some height without conflict? */
    method HasAnyValidMoves() returns (any: bool)
      requires Shaped()
      ensures any == AnyLegalMove(Board())
    {
      ghost var g := Board();
      for r := 0 to N
        invariant forall r': Index, c': Index, v :: r' < r ==> !IsLegalMove(g, r', c', v)
      {
        for c := 0 to N
          invariant forall r': Index, c': Index, v :: Before(r', c', r, c) ==> !IsLegalMove(g, r', c', v)
        {
          if grid[r, c] == 0 {
            for v := 1 to N + 1
              invariant forall w :: 1 <= w < v ==> Conflict(g, r, c, w)
            {
              var conflict := HasConflict(grid, r, c, v);
              if !conflict {
                assert IsLegalMove(g, r, c, v);
                return true;
              }
            }
          }
        }
      }
      return false;
    }

    /**
     The result of the game once it is over: both out of lives is a double
     knockout, one out of lives loses outright, and otherwise the higher
     score plus a tenth of the lives left wins, equal totals being a draw.
     */
    method GetWinner() returns (w: Option<Verdict>)
      requires Valid()
      ensures w.Some? <==> GameOver()
      ensures humanLives <= 0 && cpuLives <= 0 ==> w == Some(DoubleKnockout)
      ensures humanLives <= 0 < cpuLives ==> w == Some(CpuWins)
      ensures cpuLives <= 0 < humanLives ==> w == Some(HumanWins)
      ensures humanLives > 0 && cpuLives > 0 && w.Some? ==>
        var human, cpu := FinalTotal(humanScore, humanLives), FinalTotal(cpuScore, cpuLives);
        && (w == Some(HumanWins) <==> human > cpu)
        && (w == Some(CpuWins) <==> cpu > human)
        && (w == Some(Draw) <==> human == cpu)
    {
      if humanLives <= 0 && cpuLives <= 0 {
        return Some(DoubleKnockout);
      }
      if humanLives <= 0 {
        return Some(CpuWins);
      }
      if cpuLives <= 0 {
        return Some(HumanWins);
      }
      var full := IsBoardFull();
      var anyMoves := HasAnyValidMoves();
      if full || !anyMoves {
        var hTotal := humanScore + humanLives / 10;
        var cTotal := cpuScore + cpuLives / 10;
        if hTotal > cTotal {
          return Some(HumanWins);
        }
        if cTotal > hTotal {
          return Some(CpuWins);
        }
        return Some(Draw);
      }
      return None;
    }

    method IsGameOver() returns (over: bool)
      requires Valid()
      ensures over == GameOver()
    {
      if humanLives <= 0 || cpuLives <= 0 {
        return true;
      }
      var full := IsBoardFull();
      if full {
        return true;
      }
      var anyMoves := HasAnyValidMoves();
      return !anyMoves;
    }
  }
}
