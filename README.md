# Greedy Towers: a verified model of the rules engine and the computer players

Greedy Towers is a two-player game on a 4×4 Towers (skyscraper) board. A
human and a computer take turns writing a tower height 1–4 into an empty
cell. A height may not repeat within a row or column: the board must stay a
partial Latin square. Every placement earns points. Completing a row or
column earns more when the line's skyline (the number of towers seen from
each end) matches the clues printed at its ends, and costs lives when it
does not. Writing a clashing height costs 10 lives. Leaving the board
deadlocked costs 5. The game ends when a player runs out of lives, the
board fills, or no legal placement is left.

The computer plays one of four greedy strategies:

- **most constrained cell** — `1000/(k+1)` for a cell with k legal heights;
- **score** — simulates every legal placement on a copy of the board and scores the points it would earn;
- **survival** — legal count × an emergency multiplier that grows as lives fall;
- **completion** — prefers cells in rows and columns that are nearly full.

Each strategy scans the cells in row-major order and keeps the first
strictly best one. A separate comparator ranks scored cells by score, then
by distance to the centre, then by position.

The model is in Dafny:

- `Rules.dfy` (module `Rules`) states the rules on values:
  - the board as a 4×4 `seq<seq<int>>`;
  - the conflict test, legal heights, the Latin property, completion, skyline visibility;
  - the "first best in scan order" predicates that specify every strategy.
- `GameCore.dfy` (module `GameCore`):
  - the conflict test over the board array;
  - the search for the first legal height and the count of legal heights, both shared by the strategies;
  - the class `GameState`, which keeps the board as a mutable `array2<int>` and updates scores, lives and the status in place.
- `MostConstrained.dfy`, `ScoreGreedy.dfy`, `Survival.dfy` and `Completion.dfy` hold one strategy class each. Every strategy:
  - writes nothing but `cpuReasoningExplanation`;
  - is proved against a ghost score function of the board, with lemmas on what that score means.
- `CellSorter.dfy` holds the comparator, as written and as intended (see Findings).
- `Opening.dfy` plays the opening moves of a game against the model.

Doubles become `real`. Explanation and status strings become datatypes
(`Status`, `Rationale`) that carry their numeric content. The
`-Double.MAX_VALUE` "no best yet" sentinel becomes a `found` flag.

## Model

| member | source | states |
|---|---|---|
| GameCore.HasConflict | src/game/GameCore.java:51-55 | returns true iff the height stands in another cell of the same row or column (the neighbours the constraint graph joins) |
| GameCore.FirstLegalValue | src/game/StrategyMRV.java:146-158 | returns the smallest height with no conflict, or -1, and -1 exactly when the cell has no legal height |
| GameCore.CountLegalValues | src/game/StrategyScore.java:102-108 | returns the number of heights 1..4 that do not conflict at the cell |
| GameCore.GameState.constructor | src/game/GameCore.java:84-101 | starts from an empty valid board with scores 0, lives 100, the human to move, and the first four clues of each edge |
| GameCore.GameState.ApplyPenalty | src/game/GameCore.java:143-151 | the penalised player's lives become max(0, lives − amount); the other player's lives are unchanged; the status names the player, reason and amount |
| GameCore.GameState.MakeMove | src/game/GameCore.java:104-141 | returns true iff the move is legal on the old board. A filled cell leaves board, scores and lives unchanged. A clashing height leaves board and scores unchanged and costs 10 lives (floored at 0). An accepted move writes exactly that cell and adds 1 + 10 per completed line + 15 per completed line matching its clues. It costs 15 lives per non-matching completed line and 5 for a deadlock. The other player is untouched. The state invariant (lives in [0,100], cells 0..4) and the Latin property are preserved. The mover's score never falls and lives never rise |
| GameCore.GameState.PlaceHeight | src/game/GameCore.java:115-140 | the accepted branch: the board gains the height, the mover gains the move's points and loses its penalties, the other player is untouched, the status reports the gain, and a Latin board stays Latin |
| GameCore.GameState.ScorePlacement | src/game/GameCore.java:116-137 | adds the move's gain to the mover's score and takes the line and deadlock penalties from the mover's lives, leaving the other player alone; the status line is the last penalty applied (deadlock, else column, else row), or unchanged |
| GameCore.GameState.ScoreRow | src/game/GameCore.java:118-125 | a completed row gains 10, plus 15 if it matches its clues; otherwise it costs 15 lives and sets the status to that penalty; an incomplete row gains and costs nothing and leaves the status alone |
| GameCore.GameState.ScoreColumn | src/game/GameCore.java:119-130 | the same for the column, with the column penalty |
| GameCore.GameState.ValidateRowVisibility | src/game/GameCore.java:154-158 | true iff the row's left and right visibility counts equal its clues |
| GameCore.GameState.ValidateColumnVisibility | src/game/GameCore.java:160-166 | true iff the column's top and bottom visibility counts equal its clues |
| GameCore.GameState.CountVisible | src/game/GameCore.java:168-180 | returns the number of strict running maxima above 0, scanning forward or backward; Rules.VisibleCountIsSeenCount shows this is the number of positive heights taller than every tower before them in the scan direction |
| GameCore.GameState.IsRowComplete | src/game/GameCore.java:182-185 | true iff no cell of the row is empty |
| GameCore.GameState.IsColumnComplete | src/game/GameCore.java:187-190 | true iff no cell of the column is empty |
| GameCore.GameState.IsBoardFull | src/game/GameCore.java:192-195 | true iff no cell of the board is empty |
| GameCore.GameState.CountEmptyInRow | src/game/GameCore.java:197-201 | returns the number of empty cells in the row |
| GameCore.GameState.CountEmptyInColumn | src/game/GameCore.java:203-207 | returns the number of empty cells in the column |
| GameCore.GameState.HasAnyValidMoves | src/game/GameCore.java:209-220 | true iff some empty cell admits some non-conflicting height |
| GameCore.GameState.GetWinner | src/game/GameCore.java:222-234 | a verdict exists iff the game is over. Both players out of lives gives a double knockout; exactly one out gives the other the win; otherwise score + lives/10 decides, with equal totals a draw |
| GameCore.GameState.IsGameOver | src/game/GameCore.java:236-238 | true iff a player's lives are ≤ 0, the board is full, or no legal move is left |
| Rules.Place | src/game/GameCore.java:115 | the placed cell holds the height and every other cell is unchanged |
| Rules.PlacePreservesLatin | src/game/GameCore.java:110-115 | writing a non-conflicting height into a partial Latin square keeps it one |
| Rules.LegalCountRange | src/game/StrategyScore.java:102-108 | at most 4 heights are legal, and the count is positive iff some height does not conflict |
| Rules.LegalIsUnused | src/game/StrategyMRV.java:116-144 | on an empty cell of a board of 0..4, the legal heights are exactly those not used in its row or column, so their count is 4 minus the number of distinct used heights |
| Rules.VisibleAtMostPlaced | src/game/GameCore.java:168-180 | empty cells are never visible, so the count plus the number of empty cells is at most the line length |
| Rules.VisibleIsSeenCount | src/game/GameCore.java:168-180 | the running-maximum count over a prefix equals the number of its positions that are positive and taller than all earlier ones |
| Rules.VisibleCountIsSeenCount | src/game/GameCore.java:168-180 | counting from either end equals the number of seen positions of the line, or of its reverse |
| Rules.VisibleExample | src/game/GameCore.java:168-180 | [3,1,4,2] shows 2 towers from each end |
| Rules.EmptyCountBounds | src/game/GameCore.java:197-207 | a line with an empty cell counts at least one |
| Rules.FirstBestCellUnique | src/game/StrategyMRV.java:27-40 | the first-best cell of a row-major scan is unique |
| Rules.EndOfScan | src/game/StrategyMRV.java:27-45 | once every cell is visited, the running best is the first-best cell, and no best means no empty cell |
| Rules.EndOfPlacementScan | src/game/StrategyScore.java:21-40 | once every (cell, height) pair is visited, the running best is the first-best legal pair, and no best means no legal move |
| MostConstrained.StrategyMRV.constructor | src/game/StrategyMRV.java:12-14 | the player holds the game state it was given |
| MostConstrained.StrategyMRV.CountLegalValues | src/game/StrategyMRV.java:116-144 | returns 4 minus the number of distinct non-zero heights in the row and column, which on an empty cell of a valid board is its number of legal heights |
| MostConstrained.StrategyMRV.EvaluateMRVGreedy | src/game/StrategyMRV.java:63-79 | an empty cell with k legal heights scores 1000/(k+1), or -1000 when k = 0 |
| MostConstrained.MrvScoreDecreasing | src/game/StrategyMRV.java:71 | fewer legal heights score strictly higher |
| MostConstrained.MrvScoreSign | src/game/StrategyMRV.java:71-79 | a live cell scores in (0, 500], a dead one -1000 |
| MostConstrained.MrvPicksMostConstrained | src/game/StrategyMRV.java:27-40 | when a legal move exists, the chosen cell has the fewest legal heights among live empty cells, strictly fewer than every earlier live one |
| MostConstrained.MrvDeadCellMeansDeadlock | src/game/StrategyMRV.java:43-51 | the chosen cell has no legal height iff the board is deadlocked |
| MostConstrained.StrategyMRV.EvaluateCell | src/game/StrategyMRV.java:164-169 | 0 for a filled cell, otherwise max(0, score): positive iff the cell has a legal height |
| MostConstrained.StrategyMRV.ScanEmptyCells | src/game/StrategyMRV.java:27-40 | finds the first empty cell with the highest score and its explanation, or reports that no cell is empty |
| MostConstrained.StrategyMRV.FindBestMove | src/game/StrategyMRV.java:20-57 | returns no move iff the board is deadlocked; a move is the first-best cell with its smallest legal height; the explanation is written only with a move |
| ScoreGreedy.VisibilityObviouslyWrong | src/game/StrategyScore.java:87-90 | never flags a line as visibly wrong: the result is the constant false; the board parameter of the source is dropped because it is never read |
| ScoreGreedy.ProjectedScoreClosedForm | src/game/StrategyScore.java:46-66 | the projected score is 1 + 25 per completed line + 25 for both − 5 for at most two legal heights, hence in [-4, 76] |
| ScoreGreedy.CompletionIgnoresHeight | src/game/StrategyScore.java:47-53 | which lines a placement completes does not depend on the height placed |
| ScoreGreedy.ProjectedScoreIgnoresHeight | src/game/StrategyScore.java:46-66 | every height scores the same in a given cell |
| ScoreGreedy.ScorePicksSmallestHeight | src/game/StrategyScore.java:21-33 | the first-best pair places the smallest legal height of its cell |
| ScoreGreedy.ScoreRewardsDoubleCompletion | src/game/StrategyScore.java:55-63 | completing both lines projects more than completing neither |
| ScoreGreedy.StrategyScore.constructor | src/game/StrategyScore.java:11-13 | the player holds the game state it was given |
| ScoreGreedy.StrategyScore.DeepCopyGrid | src/game/StrategyScore.java:110-114 | returns a fresh 4×4 array with the same cells |
| ScoreGreedy.StrategyScore.IsRowComplete | src/game/StrategyScore.java:92-95 | true iff no cell of the row of the given array is empty |
| ScoreGreedy.StrategyScore.IsColumnComplete | src/game/StrategyScore.java:97-100 | true iff no cell of the column of the given array is empty |
| ScoreGreedy.StrategyScore.EvaluateScore | src/game/StrategyScore.java:46-85 | scores the placement on a copy, with the legal count taken on the current board, and leaves the board alone |
| ScoreGreedy.StrategyScore.EvaluateCell | src/game/StrategyScore.java:116-125 | 0 for a filled cell, otherwise the best projected score over legal heights floored at 0: at least every legal height's score, and 0 or one of them |
| ScoreGreedy.StrategyScore.ScanPlacements | src/game/StrategyScore.java:21-37 | finds the first legal (cell, height) pair with the highest projected score, or reports a deadlock |
| ScoreGreedy.StrategyScore.FindBestMove | src/game/StrategyScore.java:15-44 | returns no move iff the board is deadlocked; a move is the first-best legal pair, with the smallest legal height of its cell |
| Survival.EmergencyMultiplier | src/game/StrategyLives.java:78-84 | the weight lies in [1, 4]; it is 4 exactly at 15 lives or fewer and 1 exactly above 75 |
| Survival.EmergencyMultiplierMonotone | src/game/StrategyLives.java:78-84 | the multiplier lies in [1, 4] and does not increase with lives |
| Survival.EmergencyStatusOf | src/game/StrategyLives.java:78-92 | the alert level uses the multiplier's thresholds: Critical, Emergency, Warning, Alert and Safe hold exactly when the weight is 4, 3, 2, 1.5 and 1 |
| Survival.SurvivalScoreIncreasing | src/game/StrategyLives.java:55-57 | more legal heights score strictly higher |
| Survival.SurvivalScoreLive | src/game/StrategyLives.java:50-57 | a cell with a legal height scores at least 25, above the −1000 of a dead cell |
| Survival.SurvivalPicksSafest | src/game/StrategyLives.java:24-36 | when a legal move exists, the chosen cell has the most legal heights, strictly more than every earlier empty cell |
| Survival.SurvivalDeadCellMeansDeadlock | src/game/StrategyLives.java:38-41 | the chosen cell has no legal height iff the board is deadlocked |
| Survival.StrategyLives.constructor | src/game/StrategyLives.java:10-12 | the player holds the game state it was given |
| Survival.StrategyLives.EvaluateSurvival | src/game/StrategyLives.java:47-76 | scores k·25·multiplier + (100 − CPU lives)/20, or −1000 when k = 0, with that breakdown |
| Survival.StrategyLives.EvaluateCell | src/game/StrategyLives.java:114-117 | 0 for a filled cell, otherwise the unclamped survival score at the CPU's multiplier |
| Survival.StrategyLives.ScanEmptyCells | src/game/StrategyLives.java:24-36 | finds the first empty cell with the highest survival score, or reports that no cell is empty |
| Survival.StrategyLives.FindBestMove | src/game/StrategyLives.java:14-45 | returns no move iff the board is deadlocked; a move is the first-best cell with its smallest legal height |
| Completion.PriorityIsQuotient | src/game/StrategyCompletion.java:48-49 | the line priority is 100/(empty + 1) |
| Completion.PriorityDecreasing | src/game/StrategyCompletion.java:48-49 | fewer empty cells give a strictly higher priority |
| Completion.CompletionScoreBounds | src/game/StrategyCompletion.java:48-55 | with 1–4 empty cells per line the score is in (0, 300], and 300 iff both lines have one empty cell |
| Completion.CompletionScoreDecreasing | src/game/StrategyCompletion.java:48-55 | fewer empty cells in either line score strictly higher |
| Completion.EmptyCellCounts | src/game/StrategyCompletion.java:45-46 | an empty cell's row and column each have 1–4 empty cells |
| Completion.CompletionPrefersLastGap | src/game/StrategyCompletion.java:21-33 | if some cell is the last gap of both its lines, the chosen cell is too |
| Completion.CompletionCanStall | src/game/StrategyCompletion.java:21-38 | on a concrete board the first-best cell has no legal height while another cell does, so no move is returned |
| Completion.StrategyCompletion.constructor | src/game/StrategyCompletion.java:11-13 | the player holds the game state it was given |
| Completion.StrategyCompletion.EvaluateCompletion | src/game/StrategyCompletion.java:44-71 | scores 100/(emptyRow+1) + 100/(emptyCol+1) + the bonus, with that breakdown |
| Completion.StrategyCompletion.EvaluateCell | src/game/StrategyCompletion.java:82-85 | 0 for a filled cell, otherwise the completion score, which lies in (0, 300] |
| Completion.StrategyCompletion.ScanEmptyCells | src/game/StrategyCompletion.java:21-33 | finds the first empty cell with the highest completion score, or reports that no cell is empty |
| Completion.StrategyCompletion.FindBestMove | src/game/StrategyCompletion.java:15-42 | returns no move iff the board is full or the first-best cell has no legal height, so always on a deadlock; a move is that cell with its smallest legal height |
| CellSorter.CompareReal | src/game/CellSorter.java:14-29 | the sign is negative, zero or positive as the first number is less than, equal to or greater than the second; it serves both the double and the int comparisons |
| CellSorter.Compare | src/game/CellSorter.java:11-30 | the comparator as written returns −1, 0 or 1; what that order is is stated by CompareIsWrittenKeyOrder and CompareIsOrder |
| CellSorter.CompareByCentre | src/game/CellSorter.java:11-30 | the intended comparator returns −1, 0 or 1; its order is stated by CompareByCentreIsCentreKeyOrder and CompareByCentreIsOrder |
| CellSorter.CompareKeys | src/game/CellSorter.java:11-30 | lexicographic comparison, zero iff the keys are equal |
| CellSorter.CompareIsWrittenKeyOrder | src/game/CellSorter.java:19-24 | the comparator as written is the lexicographic order on (−score, \|row − centre\|, row, col) |
| CellSorter.CompareIsOrder | src/game/CellSorter.java:11-30 | the comparator as written orders higher scores first, is zero only for equal score, row and col, and is antisymmetric and transitive |
| CellSorter.CompareIgnoresColumnDistance | src/game/CellSorter.java:19-24 | as written, equal scores in one row are ordered by column alone |
| CellSorter.CentreTieBreakCounterexample | src/game/CellSorter.java:21 | (0,0) and (0,1) with equal scores: as written (0,0) comes first, though (0,1) is nearer the centre |
| CellSorter.CompareByCentreIsCentreKeyOrder | src/game/CellSorter.java:19-24 | the intended comparator is the lexicographic order on (−score, centre distance, row, col) |
| CellSorter.CompareByCentreIsOrder | src/game/CellSorter.java:11-30 | the intended comparator orders higher scores first and, among equal scores, the nearer cell first; it is zero only for equal score, row and col, and is antisymmetric and transitive |
| Opening.PlayOpening | src/game/GameCore.java:104-115 | with the clues TOP [2,1,4,2], RIGHT [2,1,3,2], BOTTOM [2,3,1,3], LEFT [2,3,1,2], a 3 at (0,0) is accepted, a 3 at (0,1) and a 3 at (1,0) are rejected, and a 3 at (1,1) is accepted |

## Left out

- The Swing interface is not part of this model: layout, animation timers, dialogs, and the heat-map normalisation that divides by the largest cell value. The turn controller's call to a deadlock check that the engine does not define is left out too.
- All formatted text (status messages, explanations, emoji) is left out. Each is a datatype carrying the numbers it reports.
- IEEE `double` arithmetic (rounding, NaN, −0.0) is left out; scores are exact reals. The `-Double.MAX_VALUE` start of each scan is a "nothing found yet" flag. Every real score beats that sentinel, so the two agree.
- The adjacency-list construction of the constraint graph (vertices and edges) is left out. `HasConflict` is modelled by what the graph encodes: two distinct cells sharing a row or column are neighbours.
- Getters and setters are reads and writes of the class fields. The computer's move is written through the public fields.
- Out-of-range coordinates and heights are not guarded in the source. They are preconditions here: `Index` for coordinates, `IsHeight` for the height passed to `MakeMove`.
- The three per-strategy copies of "first legal height" (`findLegalValueForCell`, and `findLegalValue` in the survival and completion players) are one method, `GameCore.FirstLegalValue`. Likewise, the "count legal heights" loops of the score and survival players are one method, `GameCore.CountLegalValues`. The most-constrained player's set-based count stays separate because it is computed differently.
- Survival.StrategyLives.EvaluateCell: the source passes an empty status label when scoring for the heat map. The model passes `Safe` there; the label does not enter the score.
- MostConstrained.StrategyMRV.EvaluateMRVGreedy and the rest of that player require the state invariant (cells hold 0..4). Only then does the set-based count equal the number of non-conflicting heights.
- Two behaviours of the code are modelled as written: the completion player can return no move although legal moves exist (`Completion.CompletionCanStall`); the survival player's heat-map value is not clamped at 0, so a dead cell reads −1000.

## Findings

| source | as written | input that shows it | evidently intended | confidence | as-written member | corrected member |
|---|---|---|---|---|---|---|
| src/game/CellSorter.java:21 | `distB` adds `a.col`'s distance to `b.row`'s, so the column terms cancel and the centre tie-break sees rows only | a = (row 0, col 0), b = (row 0, col 1), equal scores, size 4: as written `compare(a, b) = -1`, though b is 2 from the centre and a is 3 | `distB` uses `b.col`, so that equal scores order by full distance to the centre | high; not executed | CellSorter.Compare (shown by CellSorter.CentreTieBreakCounterexample) | CellSorter.CompareByCentre (proved by CellSorter.CompareByCentreIsOrder) |
